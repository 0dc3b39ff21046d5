# Card table containers, drag and drop, and quark confinements

This project models the core of a small browser card-game framework and of
a prototype built on it, and proves properties of the model in Dafny.

- **Containers (cards.js).** Every location (an area, a stack, a group of
  cards) keeps an ordered list of its children. Every target (a card, a
  group) keeps a back-pointer to the one location that holds it. `add`
  resolves its `before` argument, asks the veto hooks (`canAdd`,
  `canSetLocation`), splices the target in and runs the clean-up hook
  `postRemove` on the former location. `remove` checks ownership and the
  hooks (`canRemove`, `canSetLocation`) and splices the target out. A group
  takes cards only; `collapse` re-homes each of its children just before the
  group in the group's parent and then removes the group. A collapsible group
  collapses once at most one child is left.
  - `Containers` gives each operation as a function on a `State` value
    (class tag, child list and back-pointer per component).
  - `Ownership`, `Laws` and `AddRemove` prove what the operations keep and
    what they do: single ownership with matching back-pointers, where the
    target lands, the collapse law, and the round trips.
  - `CardTable.Table` performs the operations in place with the source's
    mutual recursion (`add` → `postRemove` → `collapse` → `add`/`remove`).
    Each method is proved to reach the state its function computes.
- **Drag and drop (cards.js).** The engine shares four variables between
  its listeners: what is dragged, where the drag started, the element that
  accepted the drop, and the callback it returned. `DragDrop` models it as
  a state machine. An event is the path of elements from the event target
  up to the root; the components registered on that path are asked in turn
  (`drag`, `drop`, `dblClick`) and the first that answers wins.
  `DragDrop.Engine` is the imperative listener code, proved against the
  functions `ResetSpec`, `MouseDownSpec`, `MouseMoveSpec` and `MouseUpSpec`.
- **Confinements (pentaquark.js).** A confinement takes a quark when it
  completes a colour–anticolour pair or adds a new colour to quarks of
  the same kind. It is stable when it holds a pair or three quarks.
  - `Pentaquark` checks these rules against an independent description of
    mesons and baryons.
  - `Pentaquark.Tree.Dissolve` models the `dissolve` helper: it unwraps a
    group element into its parent, in place.

`remove` (cards.js:181-196) clears the target's back-pointer before it
searches the list, so a `false` answer at that point is not free of side
effects. The model keeps that order (`Containers.Detach`), and
`Ownership.DetachConsistent` shows it is harmless in a consistent state,
where the search always succeeds. Four other places where the code works
against itself are listed under "Findings" below; the model states each as
written, with an input that shows it, and uses the corrected behaviour
everywhere else.

## Model

| member | source | states |
|---|---|---|
| Seqs.IndexOf | cards.js:188 | `indexOf`: -1 exactly when the element is absent; otherwise an index holding it with no earlier occurrence |
| Seqs.Insert | cards.js:224 | `splice(i, 0, x)`: one longer, `x` at `i`, the prefix kept and the rest shifted up by one |
| Seqs.Delete | cards.js:191 | `splice(i, 1)`: one shorter, the prefix kept and the rest shifted down by one |
| Seqs.RemoveFirst | cards.js:200-201 | no change when the element is absent; otherwise exactly its first occurrence is dropped |
| Containers.Resolve | cards.js:211-216 | absent `before` means the list length; a number is used when it is at most the length; a child means its first index, and one not listed is refused |
| Containers.Inserted | cards.js:218-227 | after the checks: the back-pointer names the new location and no other back-pointer moves |
| Containers.Spliced | cards.js:199-203 | the base clean-up touches only the one list, never a back-pointer |
| Containers.Transfer | cards.js:217-228 | an `add` with the plain clean-up moves only the target's back-pointer, to the new location |
| Containers.Detach | cards.js:181-191 | the checks and splice of `remove` keep every component's class |
| Containers.Accepted | cards.js:328-334 | the children a collapsing group hands over are exactly those its parent admits |
| Containers.Rejected | cards.js:328-334 | the children left in a collapsed group are exactly those its parent refuses |
| Containers.Rehome | cards.js:326-335 | the collapse loop keeps the table well formed and every class unchanged |
| Containers.LeaveParent | cards.js:337 | the group's own removal keeps the table well formed |
| Containers.CollapseFrom | cards.js:325-338 | `collapse` keeps the table well formed and every class unchanged |
| Containers.PostRemoveSpec | cards.js:346-350 | the clean-up hook (base splice, then collapse at ≤ 1 child for a collapsible group) keeps every class |
| Containers.AddSpec | cards.js:209-230 | `add` answers true exactly when the target is one, `before` resolves, `canAdd` and `canSetLocation` allow it; a false answer changes nothing |
| Containers.RemoveSpec | cards.js:181-196 | `remove` keeps the table well formed and every class unchanged |
| Ownership.ListedIffLocated | cards.js:47-57 | in a consistent table a location lists a target exactly when the target's back-pointer names it |
| Ownership.ParentIsLocation | cards.js:64-86 | whatever lists a child is a location |
| Ownership.UnlistedWhenUnplaced | cards.js:47-57 | a target with no location is listed nowhere |
| Ownership.TransferFresh | cards.js:217-228 | adding an unplaced target keeps single ownership |
| Ownership.TransferWithin | cards.js:217-228 | adding a target to its own location keeps single ownership |
| Ownership.TransferAcross | cards.js:217-228 | moving a target from another location keeps single ownership |
| Ownership.TransferConsistent | cards.js:217-228 | any plain transfer keeps single ownership and moves only the target's back-pointer |
| Ownership.DetachConsistent | cards.js:181-191 | in a consistent table `remove`'s checks and splice keep single ownership; a refusal changes nothing, success unlists the target |
| Ownership.RehomeConsistent | cards.js:326-335 | the collapse loop keeps single ownership whatever the hooks answer |
| Ownership.LeaveParentConsistent | cards.js:337 | the group's own removal keeps single ownership |
| Ownership.CollapseFromConsistent | cards.js:325-338 | `collapse` keeps single ownership |
| Ownership.PostRemoveConsistent | cards.js:346-350 | the clean-up hook keeps single ownership |
| Ownership.AddConsistent | cards.js:209-230 | `add` keeps single ownership |
| Ownership.RemoveConsistent | cards.js:181-196 | `remove` keeps single ownership |
| Laws.RehomeLocationFrame | cards.js:326-335 | the collapse loop changes only the back-pointers of the children it visits |
| Laws.LeaveParentLocationFrame | cards.js:337 | the group's removal changes no back-pointer but its own |
| Laws.CollapseLocationFrame | cards.js:325-338 | a collapse changes only the back-pointers of the group and of its children |
| Laws.RehomeSplits | cards.js:326-335 | over the children still to visit, the accepted ones end up in order just before the group and the refused ones stay in the group |
| Laws.SplicedAbsent | cards.js:199-203 | the base clean-up changes nothing once the target has left the list |
| Laws.LeaveGoes | cards.js:337 | without a veto the group leaves its parent's list, loses its back-pointer, and nothing else moves |
| Laws.RehomeAll | cards.js:326-335 | over all children: the parent lists `pre + accepted + [group] + post`, the group keeps the refused children, and no other list changes |
| Laws.CollapseLaw | cards.js:325-338 | `collapse`: accepted children in order in the group's place, refused ones kept, the group gone from its parent unless a hook vetoes, no other list changed |
| AddRemove.LeftOldList | cards.js:199-203 | a target moved out of another location is no longer listed there |
| AddRemove.AddLocates | cards.js:217-228 | after a successful `add` the back-pointer names the destination, even after a cascade, and also when a collapsible group re-adds one of its at least two children to itself |
| AddRemove.AddOwns | cards.js:209-230 | re-parenting is atomic: after a successful `add` the target is listed by the destination and by no other location; a collapsible group may re-add a child to itself while it holds at least two |
| AddRemove.AddAcross | cards.js:218-228 | an `add` from a former location with the base clean-up (not a collapsible group) splices the target in at the resolved index, drops it from its old list, and leaves every other list and back-pointer alone |
| AddRemove.AddLandsIn | cards.js:217-228 | an admitted `add` of a target from elsewhere puts it at the resolved index of the destination's list and points it there, even when the target leaves a collapsible group that then collapses, unless that group is itself a child of the destination |
| AddRemove.AddAppends | cards.js:211-222 | with `before` absent, `add` of a target from elsewhere succeeds exactly when the hooks allow it, and then only by appending; this holds also when the target leaves a collapsible group that collapses, unless that group is a child of the destination |
| AddRemove.AddBeforeChild | cards.js:213-226 | a `before` child that is not listed makes `add` refuse with no change, for any target; a target from elsewhere, once admitted before a listed child, lands just before it and the other children keep their order, also when it leaves a collapsible group that collapses, unless that group is a child of the destination |
| AddRemove.AddWithinShape | cards.js:217-228 | an `add` into the target's own location, when that location's clean-up is the base splice (not a collapsible group), changes only that list |
| AddRemove.AddEarlierKeeps | cards.js:220-228 | for a location whose clean-up is the base splice (not a collapsible group), re-adding a target at an earlier index changes nothing, because the first occurrence, the new copy, is dropped |
| AddRemove.AddLaterMoves | cards.js:220-228 | for a location whose clean-up is the base splice (not a collapsible group), re-adding at a later index moves the target to just before the entry that was at that index |
| AddRemove.RemoveAnswers | cards.js:181-196 | `remove` answers true exactly when the target is located here and no hook vetoes; a refusal changes nothing |
| AddRemove.RemovePlain | cards.js:181-203 | for a location whose clean-up is the base splice (not a collapsible group; see `CollapsibleRemove`), a successful `remove` drops exactly the target, keeps the others' order and clears its back-pointer |
| AddRemove.AddThenRemove | cards.js:181-230 | for a location whose clean-up is the base splice (not a collapsible group), adding an unplaced target and removing it again restores the table exactly |
| AddRemove.AddThenRemoveUnlisted | cards.js:181-230 | the same round trip, for a location whose clean-up is the base splice, needing only that the target is not yet listed |
| AddRemove.RemoveThenAddBack | cards.js:181-230 | for a location whose clean-up is the base splice (not a collapsible group), removing a listed target and adding it back at its old index restores the table exactly |
| AddRemove.CollapsibleRemove | cards.js:346-350 | `remove` from a collapsible group collapses it exactly when at most one child is left |
| CardTable.GroupParent | cards.js:323 | a placed group sits in an area, since groups take cards only |
| CardTable.CollapseSkip | cards.js:332-334 | a refused child is skipped and the outcome is the same from the next index |
| CardTable.CollapseAddSafe | cards.js:329 | the parent's `add` of a group's child never reaches the null dereference of a nested collapse |
| CardTable.CollapseMovePlain | cards.js:329 | an admitted child leaves the group's list for the slot before the group; the outcome is unchanged |
| CardTable.LeaveParentSettles | cards.js:337 | the group's removal clears its back-pointer or changes nothing, and never touches its own list |
| CardTable.CollapseMoveNested | cards.js:346-350 | when a collapsible group's last child moves out, the nested collapse leaves nothing for the outer pass |
| CardTable.CollapseMove | cards.js:328-331 | a successful turn keeps single ownership, shrinks the group's list and keeps the outcome |
| CardTable.CollapseFinish | cards.js:336-337 | after the loop `collapse` is its parent's `remove`, which cannot throw |
| CardTable.AddLanding | cards.js:217-228 | once the target is spliced in, the former location's clean-up finishes `add` |
| CardTable.RegisterConsistent | cards.js:133-137 | a new component without children or location keeps single ownership |
| CardTable.Table.constructor | cards.js:31 | a new table knows no component and is consistent |
| CardTable.Table.Register | cards.js:133-137 | a constructed component (also cards.js:304-307, 355-358) starts with no children and no location; single ownership is kept |
| CardTable.Table.Children | cards.js:206 | `children()` is the current list |
| CardTable.Table.SetLocationInternal | cards.js:362-366 | the back-pointer is written exactly when `canSetLocation` allows it, and the answer says which |
| CardTable.Table.SpliceIn | cards.js:220-227 | push or splice: the target lands at the index and nothing else changes |
| CardTable.Table.Add | cards.js:209-230 | the new table and answer are those of `AddSpec`; false exactly when refused, with no change; single ownership kept |
| CardTable.Table.PostRemove | cards.js:199-203 | the table after the clean-up hook is that of `PostRemoveSpec`, and consistent |
| CardTable.Table.Detach | cards.js:182-191 | the checks and splice of `remove`, before its clean-up hook: the new table and answer are those of `Detach`, and a success shortens the location's list |
| CardTable.Table.Remove | cards.js:181-196 | the new table and answer are those of `RemoveSpec`; single ownership kept |
| CardTable.Table.CollapseStep | cards.js:327-335 | one turn of the loop: single ownership kept, progress made, the outcome of `collapse` unchanged |
| CardTable.Table.Collapse | cards.js:325-338 | the table after `collapse` is that of `CollapseFrom`, and consistent |
| Scenarios.AppendFirst | cards.js:211-222 | `area.add(card)` appends and sets the back-pointer |
| Scenarios.InsertBeforeChild | cards.js:213-226 | `area.add(cardB, cardA)` lists `[cardB, cardA]` |
| Scenarios.RemoveTriggersCollapse | cards.js:346-350 | removing one of two cards from a collapsible group runs `collapse` |
| Scenarios.AreaTakesCard | cards.js:329 | with the default hooks the area takes the group's last card |
| Scenarios.CollapsibleDissolves | cards.js:346-350 | the group dissolves: its other card takes its place in the area, and the group is unplaced |
| Scenarios.IndexPastEndRefused | cards.js:213-216 | a numeric index past the end is refused with no change |
| Findings.IsTargetAsWritten | cards.js:47 | `instanceof Target` is false for every component |
| Findings.AddGuardedBy | cards.js:210 | `add` refuses with no change when its first test fails, and is `AddSpec` otherwise |
| Findings.RemoveGuardedBy | cards.js:182 | `remove` refuses with no change when its first test fails, and is `RemoveSpec` otherwise |
| Findings.AddAsWritten | cards.js:210 | as written `add` refuses every target |
| Findings.RemoveAsWritten | cards.js:182 | as written `remove` refuses every target |
| Findings.GuardCorrected | cards.js:209-219 | with the class test corrected, the guard adds nothing to `add`'s and `remove`'s other checks |
| Findings.AddRefusedAsWritten | cards.js:210 | adding a card to an empty area: refused as written, accepted once corrected |
| Findings.PostRemoveAsWritten | cards.js:348-350 | the collapsible group's hook as written leaves its list unchanged (the branch that collapses is left out: it does not terminate) |
| Findings.CollapsibleKeepsLeaver | cards.js:348-350 | as written, a card dragged out of a three-card group stays listed by both; corrected, the group keeps the other two |
| Findings.CollapseStallsAsWritten | cards.js:327-335 | as written, removing a card from a group of two starts a nested collapse whose every turn re-adds the remaining card, answers true and returns the same state, so its index never advances |
| Findings.AddPastEndAsWritten | cards.js:224-226 | as written, an index past the end throws after setting the back-pointer and appending |
| Findings.PastEndCorrupts | cards.js:224-228 | as written, `add(card, 5)` on two children leaves the card listed by two areas; corrected, it refuses |
| DragDrop.Registry.constructor | cards.js:31 | the registry starts empty |
| DragDrop.Registry.Register | cards.js:32-39 | registering maps the element to the component and changes no other element's lookup |
| DragDrop.Registry.Get | cards.js:41 | a lookup finds exactly the registered elements, with their components |
| DragDrop.Chain | cards.js:400-406 | the walk meets at most one component per element |
| DragDrop.ChainMembers | cards.js:400-406 | the walk meets exactly the registered elements on the path, each with its own component |
| DragDrop.ChainSnoc | cards.js:400-406 | one element further up adds its component, if any, at the end |
| DragDrop.Components | cards.js:400-406 | the loop walking up the parents yields the chain |
| DragDrop.FirstDragNone | cards.js:415-420 | `mousedown` adopts nothing exactly when every component's `drag()` is empty |
| DragDrop.FirstDragFirst | cards.js:415-419 | the first non-empty `drag()` along the chain wins |
| DragDrop.FirstDropNone | cards.js:436-443 | no drop is found exactly when every component declines |
| DragDrop.FirstDropFirst | cards.js:437-443 | the first accepting component's element and callback are recorded |
| DragDrop.DblClickStopsAtFirst | cards.js:408-412 | the components asked are a prefix of the chain; all but the last declined, and the walk stops early only at a true answer |
| DragDrop.ResetSpec | cards.js:383-398 | `reset` empties the drag, drop target and callback, and keeps the origin |
| DragDrop.MouseUpSpec | cards.js:454-459 | `mouseup` resets, then runs the saved callback |
| DragDrop.EventsKeepValid | cards.js:378-381 | every listener keeps the variables in agreement: a pending drop belongs to a drag with a drop target, and a drag has an origin |
| DragDrop.MouseDownIgnored | cards.js:414-420 | a press where nothing offers a drag changes nothing |
| DragDrop.MouseDownAdopts | cards.js:414-423 | a press adopts the first non-empty `drag()` as a fresh drag from the pointer |
| DragDrop.DefaultsTakeNoPart | cards.js:101-111 | with the default answers a press starts nothing, a move finds no drop and a double click asks every component |
| DragDrop.MoveWhileIdle | cards.js:433 | a move while nothing is dragged changes nothing |
| DragDrop.MoveFindsAcceptor | cards.js:435-443 | a move onto a new element records the first accepting component's element and callback |
| DragDrop.MoveFindsNone | cards.js:435-443 | a move where every component declines leaves no drop and no drop target |
| DragDrop.MouseUpRunsSavedDrop | cards.js:454-459 | the callback runs on an idle engine; nothing runs without a drag |
| DragDrop.Engine.constructor | cards.js:378-381 | the engine starts idle |
| DragDrop.Engine.Reset | cards.js:383-398 | the variables after `reset` are those of `ResetSpec` |
| DragDrop.Engine.DblClick | cards.js:408-412 | the listener asks the components of `DblClickCalls`, in order |
| DragDrop.Engine.MouseDown | cards.js:414-430 | the variables after the listener are those of `MouseDownSpec` |
| DragDrop.Engine.MouseMove | cards.js:432-452 | the variables after the listener are those of `MouseMoveSpec` |
| DragDrop.Engine.MouseUp | cards.js:454-459 | the variables and the callback run are those of `MouseUpSpec` |
| DragDrop.MouseMoveAsWritten | cards.js:432-444 | as written a move never changes the drag and never clears a drop target |
| DragDrop.StaleDropTarget | cards.js:435-443 | as written, moving over an acceptor, away and back drops nothing on release; corrected, it runs the callback |
| DragDrop.AsWrittenBreaksValid | cards.js:435-444 | leaving an acceptor for a declining element breaks the agreement as written and keeps it when corrected |
| Pentaquark.CanAccept | pentaquark.js:131-142 | an empty confinement takes any quark; nothing is taken at three; an accepted quark has the first member's colour exactly when its kind differs from the first member's (the full rule, including the refusal of that colour at two members, is `CanAcceptKeepsHadronic`) |
| Pentaquark.CanAcceptKeepsHadronic | pentaquark.js:131-142 | on a meson or partial baryon, `canAccept` admits exactly the quarks that keep it one |
| Pentaquark.Added | pentaquark.js:126-129 | `add` appends the quark or leaves the members as they were, and never grows them past three |
| Pentaquark.BuiltIsHadronic | pentaquark.js:126-140 | a confinement built only by `add` is a meson or partial baryon of at most three quarks |
| Pentaquark.IsStable | pentaquark.js:144-149 | a stable confinement holds at least two quarks |
| Pentaquark.StableIffNeutral | pentaquark.js:144-149 | on a meson or partial baryon, `isStable` holds exactly when it is colourless |
| Pentaquark.IsConfined | pentaquark.js:169-171 | a confined quark sits in a confinement of at least two |
| Pentaquark.ConfinedIffNeutral | pentaquark.js:166-171 | a quark outside any confinement, which as written is every quark because `location` is never assigned, is not confined; a quark whose location were a confinement built by `add` would be confined exactly when that confinement is colourless |
| Pentaquark.AnnihilatesSymmetric | pentaquark.js:173-175 | annihilation is symmetric, never pairs a quark with itself, and ignores colour |
| Pentaquark.Confinement.constructor | pentaquark.js:120-124 | a new confinement is empty |
| Pentaquark.Confinement.Add | pentaquark.js:126-129 | the members become `Added`; a meson or partial baryon stays one, of at most three |
| Pentaquark.DissolvedMembers | pentaquark.js:7-12 | the group is gone, its children are in, every other sibling stays, and nothing repeats |
| Pentaquark.AdoptedLinks | pentaquark.js:8-10 | each moved child's parent becomes the group's parent; every other link is kept |
| Pentaquark.Tree.MoveFirstChildOut | pentaquark.js:9 | `insertBefore(firstChild, group)`: the first child lands just before the group |
| Pentaquark.Tree.RemoveChild | pentaquark.js:11 | `removeChild`: the child leaves the list and loses its parent |
| Pentaquark.Tree.DissolveRound | pentaquark.js:8-10 | one turn: the next original child moves in front of the group |
| Pentaquark.Tree.EmptyGroup | pentaquark.js:8-10 | the loop leaves the parent listing the group's children in order just before the group, and the group empty |
| Pentaquark.Tree.Dissolve | pentaquark.js:7-12 | the parent's list becomes prefix + the group's children in order + suffix, and the group is detached |

## Left out

- DOM rendering is not modelled:
  - the element moves that mirror the list updates (`removeChildElement`, `appendChildElement`, `insertBeforeElement`);
  - style offsets, `zIndex`, `pointerEvents` and the class toggles of the drag engine;
  - `CardStack`'s top-card and contents plumbing;
  - `child()`.
  They carry no logic beyond the list order, which the model keeps.
- The pointer coordinates of `mousemove` are not modelled. They only position the dragged elements.
- The registry is a plain map. The key weakness of `WeakMap` and the logged `try`/`catch` around `set` are platform behaviour.
- `click()` is left out. No listener in the core calls it.
- Each component's answers to `drag`, `drop` and `dblClick` are given as functions fixed for one event. A component whose answer depends on hidden state is not modelled.
- `before` as `null` is treated like an absent `before`. A negative number is outside `nat` and is not modelled.
- The `return false` after a successful splice in `remove` is not modelled. The splice always returns an array, so that line cannot be reached.
- The veto hooks of game subclasses are parameters (`Containers.Rules`): `canAdd` of an area, `canRemove` and `canSetLocation`. A group's `canAdd` is not a parameter: it is fixed to the core's `target instanceof Card` (cards.js:323, `Containers.CanAdd`). A `CardGroup` subclass that overrides it is not modelled; `CardTable.GroupParent` and the termination measure of the table's methods rely on groups holding cards only. `canAdd` on an area does not receive the index: no class in the core uses it.
- `CardArea` and `CardStack` are one kind, `Area`. They differ only in rendering.
- CardTable.Table.Add: requires that the call not reach a null dereference. The two such inputs are a numeric index past the end, which the model refuses (finding 3), and a collapse of an unplaced group. The throwing paths are modelled only as written, in `Findings.AddPastEndAsWritten`.
- CardTable.Table.Remove: requires that the clean-up not reach the null dereference of `collapse` on an unplaced group. The exception itself is not modelled.
- CardTable.Table.Collapse: requires a collapsible group to hold at most one child, the only way its own hook calls it. A direct call on a larger collapsible group is not modelled.
- AddRemove.AddLocates: excludes re-adding the only child of a collapsible group to that same group. There the collapse carries the target on to the group's parent.
- AddRemove.AddOwns: excludes re-adding the only child of a collapsible group to that same group, for the same reason as `AddLocates`.
- AddRemove.AddLandsIn: excludes a target leaving a collapsible group that is itself a child of the destination and that collapses. The collapse then adds the group's remaining children to the destination before the group, so the destination's list is not a plain insertion.
- AddRemove.AddAppends: excludes the case `AddLandsIn` excludes, for the same reason.
- AddRemove.AddBeforeChild: states where the target lands only for a target from elsewhere, excluding also the case `AddLandsIn` excludes. A target already in the destination is covered by `AddEarlierKeeps` and `AddLaterMoves`: re-added before a child that follows it, it does not move.
- AddRemove.AddAcross: covers a former location with the base clean-up only. When the target leaves a collapsible group that collapses, other lists change too; `AddRemove.AddLandsIn` states what still holds there.
- AddRemove.AddWithinShape: covers a location with the base clean-up only. A collapsible group that re-adds its only child collapses.
- AddRemove.AddEarlierKeeps: covers a location with the base clean-up only, for the reason given for `AddWithinShape`.
- AddRemove.AddLaterMoves: covers a location with the base clean-up only, for the reason given for `AddWithinShape`.
- AddRemove.RemovePlain: covers a location with the base clean-up only. A collapsible group is covered by `AddRemove.CollapsibleRemove`, where the removal may collapse the group.
- AddRemove.AddThenRemove: covers a location with the base clean-up only. Removing from a collapsible group may collapse it, so the table is not restored.
- AddRemove.AddThenRemoveUnlisted: covers a location with the base clean-up only, for the reason given for `AddThenRemove`.
- AddRemove.RemoveThenAddBack: covers a location with the base clean-up only, for the reason given for `AddThenRemove`.
- Findings.PostRemoveAsWritten: requires a collapsible group to keep more than one child. The collapsing branch as written does not terminate; `Findings.CollapseStallsAsWritten` shows one turn of its loop that changes nothing.
- Laws.CollapseLaw: states the collapse of a group with a location only. An unplaced group with children throws (`Containers.CollapseThrows`).
- Pentaquark.ConfinedIffNeutral: takes the quark's location as a parameter. No code in pentaquark.js sets `Quark.location` (only the constructor, to undefined, line 166), and `Confinement.add` (lines 126-129) only pushes the quark. So as written `isConfined` is false for every quark, which is the lemma's `Elsewhere` clause; the confinement clause describes a link the source never makes.
- Pentaquark.Annihilates has no contract of its own. Its properties are in `Pentaquark.AnnihilatesSymmetric`.
- `Persistenet.add` and `Confinement.dissolve` (pentaquark.js:99-115, 151-156) are not modelled. They call methods no class defines, or a location that is never set. The `ANTICOLORS` table is left out too: it only maps colours to display names, and one of its keys names a colour that does not exist.
- The event listeners of pentaquark.js (lines 22-79) are DOM queries. Only the effect of `dissolve` on the element tree is modelled.
- Text nodes are not modelled: a `Pentaquark.Node` is an element. `dissolve` (pentaquark.js:8-9) counts element children but moves `firstChild`, which may be a text node. So text before the group's last element child moves out with the elements, and trailing text is removed with the group.
- template.js, util.js, present.js and gulpfile.js are not part of this model. They hold asynchronous loading, browser globals and build configuration.

## Findings

| source | as written | input that shows it | evidently intended | confidence | as-written member | corrected member |
|---|---|---|---|---|---|---|
| cards.js:210 | `target instanceof Target`, but no component class extends the `@record` class `Target`, so `add` and `remove` (line 182) refuse every target | `area.add(card)` on an empty area with the default hooks | a test that the component is a card or a group | not executed | Findings.AddRefusedAsWritten | Findings.GuardCorrected |
| cards.js:348-350 | with the guard at line 210 corrected: the collapsible group's `postRemove` never drops the leaving target from its list | a card dragged from a collapsible group of three onto its area stays listed by both | drop the target as the base hook does, then collapse at ≤ 1 child | not executed | Findings.CollapsibleKeepsLeaver | Containers.PostRemoveSpec |
| cards.js:327-335 | with the guards at lines 182 and 210 corrected: because the collapsible group's hook never drops a child that `collapse` adds elsewhere, the group re-enters `collapse` and its loop re-adds the same child forever: `add` answers true, `i` stays 0 and the list never shrinks | `remove` of one card from a collapsible group of two cards placed in an area | each accepted child leaves the group's list, so the loop ends and the group leaves its parent | not executed | Findings.CollapseStallsAsWritten | Scenarios.CollapsibleDissolves |
| cards.js:224-226 | with the guard at line 210 corrected: a numeric `before` past the end is not checked: the back-pointer is set and the target appended, then `children_[before + 1]` is undefined and the call throws before the former location's clean-up | `area0.add(card4, 5)` with two cards in `area0` and `card4` in `area3` | refuse an index past the end, with no change | not executed | Findings.PastEndCorrupts | Scenarios.IndexPastEndRefused |
| cards.js:435-443 | when no component accepts, `drop` is cleared but `dropTarget` keeps the last acceptor's element | drag over an accepting element, then a declining one, then back over the first, then release: nothing is dropped | clear `dropTarget` together with `drop` | not executed | DragDrop.StaleDropTarget | DragDrop.Engine.MouseMove |
