# A Dafny model of FSMLang

FSMLang compiles descriptions of state machines to C. This project models the parts of it that are easiest to get
wrong, in Dafny, and proves what they do on all inputs. It has four parts.

* **Paths** (`Path*.dfy`): the path library, Unix style. Texts are NUL-terminated arrays of characters, the segment
  cursors are objects that move over them, and the output goes into an array of a given size. Normalisation uses no
  stack: it decides each segment by counting forwards or backwards. The proofs show that these scans are a stack
  reduction, and that both keep exactly the segments that no matching of names with ".." cancels. Everything else
  follows from that: joining, absolute and relative paths, intersection, changing a segment, truncated output, and
  output into the buffer that holds the input.
* **Back ends** (`Fsm{Matrix,Populate,Run,Program,Table,EventTable,Switch,SwitchRuns,Consolidate,SingleSwitch,SingleSwitchRuns,Hooks}.dfy`):
  one event/state matrix, filled from the action records, is compiled four ways. Each generator is a method that prints
  case labels and bodies; a label without a body falls through. The generated code runs on an object with a state, a
  recorded event and a log of all calls. Actions, transition functions and hooks are arbitrary functions with a memory
  of their own: an action answers by that memory, the state and the recorded event, and leaves a new memory; so do
  transition functions and the machine's own hook. Exit and entry functions do not see the machine.
  `FsmRun.React` says what the cell of the current event and state means; every back end is proved against it.
* **Hierarchy** (`FsmTree.dfy`, `FsmXref.dfy`, `FsmNested.dfy`): the numbers of the events of a tree of machines, the
  scan that picks a sub-machine, and runs of nested machines that hand events back to their callers.
* **Tools** (`List.dfy`, `Getopt.dfy`, `Names.dfy`): the doubly linked list with ordinals, the resumable option parser,
  and the two versions of the name transformer.

## What the proofs found

* `src/cwalk.h:327` promises that a path may be normalised in its own buffer. For relative paths this fails when a
  surviving ".." that is not the last one, and starts within the buffer size, moves by one or two characters: the next
  ".." reads it, together with what is left behind it, as a normal segment and takes it for its pair.
  `InPlaceRelative` gives the exact condition for every size, `DotDotIsLost` an input.
* The comment at `src/cwalk.c:622` says that paths without segments give "/". The code gives the root of the first
  path, which is empty for a relative one. The model follows the code.
* A relative path need not lead back: not when the base climbs higher than the path, and not for the empty path, where
  the answer "." is a segment of its own. `RelativeLeadsBack` gives the exact condition, `RelativeCannotLead` an input.
* The switch back end loses an event when an action of an event handled identically in all states answers another such
  event (`SwitchLosesEvent`). It also does not record the event of the second half of an iteration, so that a called
  function which looks at the recorded event sees the first one. It may answer by it (`SwitchMisreads`), or merely
  remember it, which shows later (`SwitchRemembers`). `SwitchMatchesTable` and `SwitchRunIsTableRun` give the exact
  conditions for one iteration and for whole runs, and `SwitchIsTable` says exactly which machines are safe whatever
  functions they call.
* The single switch passes a transition function the event that the action answered, not the event handled
  (`SinglePassesOn`); `SingleMatchesTable` and `SingleRunIsTableRun` give the exact conditions. Its keys leave room for
  16 states (`KeysDifferWhen`). Beyond that it may not compile (`SingleSwitchCompiles`), or compile and run the record
  of another cell (`SwitchSelectsCell`, `EmptyCellRuns`).
* The header sets `lastEvent` of a sub-machine to the noEvent of its last sub-machine (`src/fsm_utils.c:1284-1300`). When that
  one has sub-machines, their events lie outside the range, and the enumerators that follow repeat their numbers
  (`RoutesAllWhenShallow`, `HeaderMatchesXref`, `DeepMachinesCollide`). Table look-ups stay in bounds all the same
  (`RunsLookUpInside`).
* `move_list` loses the tail when the source is empty and the destination is not, and never joins the `prev` links at the
  seam (`MoveList`).
* The name transformer is idempotent exactly when no lower-case letter directly follows a digit or another character with
  the 0x20 bit that is not a letter (`CapsTwice`, `CapsTwiceMore`).

## Model

| member | source | states |
|---|---|---|
| `PathSegments.PreviousUndoesNext` | src/cwalk.c:1263-1330 | stepping forward from a segment and back again finds the same segment, for every text and every segment |
| `PathSegments.NextUndoesPrevious` | src/cwalk.c:1263-1330 | stepping back and forward again finds the same segment |
| `PathSegments.CutSplits` | src/cwalk.c:165-192 | the backward scan from any cut and the forward scan from it together list exactly the segments of the text |
| `PathSegments.SegmentSplits` | src/cwalk.c:1263-1330 | the list around any segment: what the backward scan finds, the segment, what the forward scan finds |
| `PathSegments.SegmentsOfJoin` | src/cwalk.c:165-192 | joining two texts at a separator joins their segment lists |
| `PathReduction.NormalScanCountsPops` | src/cwalk.c:404-439 | the forward counter scan over the segments after a normal one succeeds exactly when they pop more than the counter |
| `PathReduction.BackScanCountsTop` | src/cwalk.c:362-402 | the backward counter scan before a ".." succeeds exactly when the stack of what precedes has enough normal segments on top |
| `PathReduction.VisibleIsStackLessPops` | src/cwalk.c:362-461 | what the scans let survive of any prefix is the left-to-right stack of that prefix less what the rest pops |
| `PathReduction.VisibleIsReduction` | src/cwalk.c:441-474 | the segments that survive the scans are exactly the stack reduction of the list: "." dropped, ".." pops, an unmatched ".." kept only when relative |
| `PathReduction.CutAfterVisible` | src/cwalk.c:463-474 | a cut behind a surviving segment never splits a removed pair |
| `PathReduction.VisibleAt` | src/cwalk.c:441-474 | a surviving segment stands in the reduced list right behind those that survive before it |
| `PathReduction.ReduceIsCanonical` | src/cwalk.c:362-461 | a reduced list has no ".", and ".." only as a leading run of a relative list |
| `PathReduction.ReduceFixesCanonical` | src/cwalk.c:362-461 | a canonical list is left alone |
| `PathReduction.ReduceOfReduced` | src/cwalk.c:605-679 | reducing in two steps is reducing at once |
| `PathMatching.ScansMatch` | src/cwalk.c:362-461 | a segment disappears exactly when it is ".", when it is a name that a later ".." cancels with what stands between balanced, or when it is a ".." that cancels a name or stands under a root |
| `PathMatching.NormalizedIsMatching` | src/cwalk.c:605-679 | the normalised text is the root and exactly the segments that stay, joined, or "." when none is left of a relative path |
| `PathMatching.NamesAreKept` | src/cwalk.c:605-679 | without "." and ".." segments, joining and normalising writes the root and all segments, whatever their characters |
| `PathMatching.SegmentsAtSlash` | src/cwalk.c:165-192 | two texts with a "/" between have the segments of both |
| `PathMatching.OneSegment` | src/cwalk.c:605-679 | a text without "/" is normalised to itself |
| `PathMatching.TightIsJoined` | src/cwalk.c:605-679 | a text without "//" and without a "/" at its end is the root and its segments joined, so that root and segments tell it |
| `PathMatching.NormalizedIsTight` | src/cwalk.c:605-679 | a normalised text has no "//" and ends in "/" only when it is the root |
| `PathMatching.NormalisedAlready` | src/cwalk.c:605-679 | normalising leaves a text alone if and only if it is "." or has no "//", no "/" at its end, and no segment that disappears |
| `PathSplits.NextInText` | src/cwalk.c:280-317 | stepping within one of several texts moves one place on in the list of all their segments |
| `PathSplits.PreviousInText` | src/cwalk.c:319-360 | stepping back within one of several texts moves one place back in that list |
| `PathCursor.FindNextStop` | src/cwalk.c:165-175 | the character cursor stops at the next separator or at the NUL |
| `PathCursor.FindPreviousStop` | src/cwalk.c:177-192 | the character cursor stops behind the previous separator or at the beginning |
| `PathCursor.SegmentCursor.GetFirstWithoutRoot` | src/cwalk.c:194-235 | the cursor rests on the first segment at or after a position, or reports that there is none and leaves an empty segment |
| `PathCursor.SegmentCursor.GetFirst` | src/cwalk.c:1229-1242 | the same behind the root |
| `PathCursor.SegmentCursor.GetNext` | src/cwalk.c:1263-1299 | the cursor rests on the segment that follows, or does not move |
| `PathCursor.SegmentCursor.GetPrevious` | src/cwalk.c:1301-1330 | the cursor rests on the segment before, or does not move |
| `PathCursor.SegmentCursor.GetLastFrom` | src/cwalk.c:237-255 | the cursor rests on the last segment |
| `PathCursor.SegmentCursor.GetType` | src/cwalk.c:1332-1344 | the kind of the segment under the cursor, an empty one counting as current |
| `PathJoined.JoinedCursor.GetFirst` | src/cwalk.c:257-278 | the joined cursor rests on the first segment of all texts together, skipping texts without any |
| `PathJoined.JoinedCursor.GetNext` | src/cwalk.c:280-317 | the joined cursor moves one place on in the list of all segments, or ends behind the last text |
| `PathJoined.JoinedCursor.GetPrevious` | src/cwalk.c:319-360 | the joined cursor moves one place back in the list of all segments |
| `PathJoined.JoinedCursor.BackWillBeRemoved` | src/cwalk.c:362-402 | the loop with its counter decides what the backward scan over the list decides |
| `PathJoined.JoinedCursor.NormalWillBeRemoved` | src/cwalk.c:404-439 | the loop with its counter decides what the forward scan over the list decides |
| `PathJoined.JoinedCursor.SegmentWillBeRemoved` | src/cwalk.c:441-461 | the decision for the segment under the cursor, made on a copy of the cursor |
| `PathJoined.JoinedCursor.SkipInvisible` | src/cwalk.c:463-474 | the cursor comes to rest on the next surviving segment, passing only segments that disappear |
| `PathOutput.OutputSized` | src/cwalk.c:41-68 | writes exactly the part of a text that lies below the buffer size, and answers its whole length |
| `PathOutput.TerminateOutput` | src/cwalk.c:112-122 | leaves the output with its NUL in place, at the end of the text or of the buffer |
| `PathOutput.EmittedText` | src/cwalk.c:41-122 | what a caller finds for every size: the first min(length, size - 1) characters, then the NUL, and nothing else changed |
| `PathNormalize.JoinAndNormalize` | src/cwalk.c:605-679 | the length and the whole buffer after joining and normalising: the normalised text cut to size, for separate buffers of every size and for the buffer that holds the only path |
| `PathApi.Normalize` | src/cwalk.c:1148-1158 | the same for one path, in a separate buffer or in its own; in its own buffer, of every size, the result is the normalised text for absolute paths and for relative ones without a collision; without "." and ".." it is the root and the segments joined |
| `PathApi.Join` | src/cwalk.c:860-874 | joining two paths writes their normalised text |
| `PathApi.JoinMultiple` | src/cwalk.c:876-882 | joining any number of paths writes their normalised text |
| `PathApi.GetAbsolute` | src/cwalk.c:681-715 | the path as seen from the base; a relative base is put under a made-up root, an absolute path overrides the base |
| `PathText.NormalizeIdempotent` | src/cwalk.c:605-679 | normalising a normalised text changes nothing |
| `PathText.NormalizedIsCanonical` | src/cwalk.c:605-679 | a normalised text is "." or the root with a canonical list joined by single separators |
| `PathText.JoinAssociative` | src/cwalk.c:860-882 | joining the join of some paths with more paths is joining them all |
| `PathText.AbsoluteIsAbsolute` | src/cwalk.c:681-715 | the absolute form is absolute, and is the normalised join with the base, with the base under a root, or of the path alone |
| `PathInPlace.InPlaceAbsolute` | src/cwalk.c:605-679 | for every absolute path and every size, normalising in the path's own buffer gives what a separate buffer gives |
| `PathInPlaceRelative.RemovedStays` | src/cwalk.c:362-402 | a ".." that disappears in a separate buffer also disappears in place, whatever was written over the beginning |
| `PathInPlaceRelative.DecidedInPlace` | src/cwalk.c:362-402 | for every size, a surviving ".." is lost in place exactly when the surviving ".." before it moved by one or two characters and starts within the buffer size |
| `PathInPlaceRelative.InPlaceRelative` | src/cwalk.c:605-679 | for every relative path and every size, normalising in its own buffer gives the normalised text if and only if no surviving ".." that is followed by another, and starts within the buffer size, moves by one or two characters |
| `PathInPlaceRelative.DotDotIsLost` | src/cwalk.c:605-679 | "./../.." normalised in its own buffer is not "../.." |
| `PathRelative.SkipUntilDiverge` | src/cwalk.c:717-751 | both cursors end behind the longest common prefix of the two reduced lists |
| `PathRelative.GetRelative` | src/cwalk.c:753-858 | the length and the whole buffer: ".." for each step up from the base, then the rest of the path, "." when there is nothing, cut to size; nothing under different roots |
| `PathText.RelativeLeadsBack` | src/cwalk.c:753-858 | following the relative path from the base leads to the path if and only if both have the same root and, when relative, the path is not empty and the base climbs no higher than it |
| `PathText.RelativeCannotLead` | src/cwalk.c:753-858 | from ".." the relative path to "a" does not lead to "a" |
| `PathText.RelativeIsNormal` | src/cwalk.c:753-858 | the relative path is empty exactly under different roots, and otherwise in normal form |
| `PathText.RelativeIsShortest` | src/cwalk.c:753-858 | no other path with fewer segments leads from the base to the same target |
| `PathText.AbsoluteUndoesRelative` | src/cwalk.c:681-858 | for all absolute bases and paths, the absolute form of the relative form is the normalised path |
| `PathRelative.GetIntersection` | src/cwalk.c:1160-1227 | the answered length cuts the base where its reduced segments are the longest common prefix of both reduced lists, right behind the last surviving segment of that prefix, or behind the root; 0 under different roots |
| `PathChange.ChangeSegment` | src/cwalk.c:1363-1414 | the length and the whole buffer after replacing a segment, also when the buffer is the path itself |
| `PathChange.ChangedSegments` | src/cwalk.c:1363-1414 | the changed path has the segments of the old one with those of the trimmed value in place of the changed segment; a value without inner separators changes only that segment |
| `PathChange.TrimmedHasNoEnds` | src/cwalk.c:1374-1393 | the trimmed value is the value without separators at its ends, and neither starts nor ends with one |
| `PathChange.TrimIsUnique` | src/cwalk.c:1374-1393 | taking separators off both ends of a value leaves the same, however many there are |
| `PathChange.SlashesDoNotMatter` | src/cwalk.c:1363-1414 | separators around a value do not change the written text |
| `FsmPopulate.ActionArray.AddToActionArray` | src/fsm_utils.c:373-478 | a record goes into a free cell and into the lists of its event and state; a taken cell is an error |
| `FsmPopulate.ActionArray.IterateMatrixStates` | src/fsm_utils.c:480-508 | after one event of a record: the cells, the lists, and whether one record fills every state of the event |
| `FsmPopulate.ActionArray.Populate` | src/fsm_utils.c:510-567 | the fill fails exactly when two claims meet in a cell; otherwise every cell holds its record, and the events handled identically in all states are marked |
| `FsmPopulate.AllStatesByCount` | src/fsm_utils.c:500-505 | distinct states are all the states exactly when there are as many |
| `FsmPopulate.HandledByState` | src/fsm_utils.c:434-440 | an event is listed for a state, and the state for the event, exactly when their cell is filled |
| `FsmMatrix.SingleSpreads` | src/fsm_utils.c:486-505 | the record of an event handled identically in all states makes every event that shares a cell with it such an event |
| `FsmRun.StepOfRecord` | src/fsm_c.c:802-976 | what a step does by the record that names event and state: answer, next state, memory and calls, with the action, the transition and each hook in turn |
| `FsmRun.StepWithoutRecord` | src/fsm_c.c:802-976 | without such a record nothing happens and no event is answered |
| `FsmRun.HooksFollowTrail` | src/fsm_c.c:923-966 | over every run the hooks called are those of the trail of states: exit of the state left, entry of the next, once a real change and never on a self-transition |
| `FsmRun.HooksFollowSession` | src/fsm_c.c:923-966 | the same over any number of external events, which covers machines whose actions answer nothing |
| `FsmRun.AllHooksNameTrail` | src/fsm_c.c:923-966 | with every hook in place the calls name the trail: each exit names the state that the entry before it named |
| `FsmRun.OnlyOwnHooks` | src/fsm_c.c:923-966 | a machine calls, of the hooks that a machine with all of them would call, exactly those that it has |
| `FsmHooks.SwitchHooksFollowTrail` | src/fsm_cswitch.c:1238-1315 | over every run of the switch, without any condition, the hooks called are those of one trail of states, the states in the middle of an iteration included |
| `FsmHooks.SingleHooksFollowTrail` | src/fsm_c_switch_common.c:621-696 | over every run of the single switch likewise, with transition functions of any kind |
| `FsmProgram.Fsm.RunHooks` | src/fsm_c_switch_common.c:621-696 | the calls made on a change of state, in order, and none without a change |
| `FsmTable.DefineActionArray` | src/fsm_c.c:1615-1801 | every entry of the array stands for its own cell: its action or none, and a transition to the same place, as a state or as a function |
| `FsmTable.Iterate` | src/fsm_c.c:802-976 | one iteration of the generated loop does what the cell of event and state says |
| `FsmTable.Loop` | src/fsm_c.c:1137-1214 | any number of iterations is that many steps of the machine |
| `FsmProgram.FallsToOwner` | src/fsm_c_event_table.c:1115-1197 | from every printed case label control falls through to the body of the label's own record |
| `FsmProgram.SelectsOwner` | src/fsm_c_event_table.c:1115-1197 | every printed label selects the body of its own record |
| `FsmEventTable.HandlerCannotBeItsAction` | src/fsm_c_event_table.c:659-681 | a handler is replaced by its bare action only when one record without a transition fills every state |
| `FsmEventTable.DefineEventTable` | src/fsm_c_event_table.c:609-757 | every event gets a bare action, one body, a switch over states or nothing, as its cells demand |
| `FsmEventTable.SwitchSelectsCell` | src/fsm_c_event_table.c:1115-1197 | the switch over states selects the record of the current state's cell, and nothing for an empty cell |
| `FsmEventTable.EventCasesAreDistinct` | src/fsm_c_event_table.c:1115-1197 | no state is printed twice in the switch of an event |
| `FsmEventTable.CallHandler` | src/fsm_c_event_table.c:700-1015 | calling an event's entry does what the cell of event and state says, with event-dependent transition functions and hooks |
| `FsmEventTable.Loop` | src/fsm_c_event_table.c:1455-1476 | any number of iterations is the same run as with the table |
| `FsmSwitch.DefineSwitch` | src/fsm_cswitch.c:1615-1636 | a function for every state, and the handler before them when some event is handled identically in all states |
| `FsmSwitch.WriteEventCases` | src/fsm_cswitch.c:1652-1797 | the printed cases of a state: a label an event, a body where the next event has another record, none for events of the handler |
| `FsmSwitch.EventsAgree` | src/fsm_cswitch.c:1652-1797 | leaving out the events of the handler never leaves a printed label without its body |
| `FsmSwitch.StateFnSelectsCell` | src/fsm_cswitch.c:1652-1797 | a state's function runs the record of its cell, and nothing for an empty cell or an event of the handler |
| `FsmSwitch.StateCasesAreDistinct` | src/fsm_cswitch.c:1652-1797 | no event is printed twice in the function of a state |
| `FsmSwitch.DefineAllStateHandler` | src/fsm_cswitch.c:2360-2582 | the handler has a case and a body for exactly the events handled identically in all states |
| `FsmSwitch.HandlerSelects` | src/fsm_cswitch.c:2360-2582 | the handler selects the one record of such an event, and nothing for any other |
| `FsmSwitch.CallStateFn` | src/fsm_cswitch.c:1317-1456 | a state's function with its epilogue leaves state, log and answer of that record |
| `FsmSwitch.Epilogue` | src/fsm_cswitch.c:1238-1315 | the end of a state's function changes the state and calls the hooks of the change |
| `FsmSwitch.EpilogueWhen` | src/fsm_cswitch.c:1317-1456 | a state's function has the epilogue if and only if some record of the state has a transition |
| `FsmSwitch.CallHandler` | src/fsm_cswitch.c:2669-2842 | the handler leaves state, log and answer of the record, and hands any other event on |
| `FsmSwitch.Iterate` | src/fsm_cswitch.c:2142-2204 | one iteration of the generated loop is the handler, then the function of the state it leaves unless it answered no event |
| `FsmSwitchRuns.SwitchIteration` | src/fsm_cswitch.c:2142-2204 | for every configuration and all called functions, one iteration is one step of the table or two, the second with functions that see the first event recorded; an event of the handler answered by the handler is dropped |
| `FsmSwitchRuns.SwitchMatchesTable` | src/fsm_cswitch.c:2142-2204 | an iteration is one or two steps of the table, with the same state, answer, memory and log, if and only if the functions of the second half answer, move and remember as if they saw their own event, and the handler did not answer an event of its own whose cell does anything |
| `FsmSwitchRuns.SwitchRunIsTableRun` | src/fsm_cswitch.c:2142-2204 | a run of the switch comes to the state, event, memory and log of the table after each of its iterations if and only if each of them keeps step in that sense |
| `FsmSwitchRuns.TableRunIsSwitchRun` | src/fsm_cswitch.c:2142-2204 | while the switch keeps step, every run of the table is one of the switch or one step short of one |
| `FsmSwitchRuns.SettleTogether` | src/fsm_cswitch.c:2142-2204 | while the switch keeps step, the two come to rest with the same state, memory and log, or neither does |
| `FsmSwitchRuns.ConditionsKeepUp` | src/fsm_cswitch.c:2142-2204 | every run keeps step when the actions of the handler's events answer none of them, and what the other cells call neither answers by the recorded event nor remembers it |
| `FsmSwitchRuns.SwitchIsTable` | src/fsm_cswitch.c:2142-2204 | every run of the switch is a run of the table, for all called functions and from every configuration, if and only if no event of the handler with an action leads to a state where another event of the handler does anything or an event of the state functions calls a function that sees the recorded event |
| `FsmSwitchRuns.Loop` | src/fsm_cswitch.c:2142-2204 | the loop makes that many iterations with called functions of any kind, and the run of the table as long as they keep step |
| `FsmSwitchRuns.SwitchLosesEvent` | src/fsm_cswitch.c:2142-2204 | a machine whose second event is lost because the handler answered an event of its own |
| `FsmSwitchRuns.SwitchMisreads` | src/fsm_cswitch.c:2142-2204 | a machine of two states and an action that answers by the event it sees: the switch comes to rest where the table goes on |
| `FsmSwitchRuns.SwitchRemembers` | src/fsm_cswitch.c:2142-2204 | functions that answer alike whatever they see, one of which remembers the event: the switch comes to rest after two iterations and the table goes on after three |
| `FsmConsolidate.ConsolidateActionInfoList` | src/action_info_list.c:47-117 | every action record is taken over by a record of its kind, none twice, and no two records share action, transition and event list |
| `FsmConsolidate.MatricesHaveSameEvents` | src/action_info_list.c:126-147 | the walk over two event lists compares them element by element |
| `FsmConsolidate.ConsolidationKeepsClaims` | src/action_info_list.c:47-117 | consolidation neither loses nor adds a cell |
| `FsmConsolidate.RecordClaimsClear` | src/action_info_list.c:47-117 | no cell is held twice by the consolidated records |
| `FsmSingleSwitch.KeysDifferWhen` | src/fsm_c_single_switch.c:216-220 | the combined keys of all cells differ if and only if the states fit the shift or there is at most one event |
| `FsmSingleSwitch.KeyBits` | src/fsm_c_single_switch.c:216-220 | the bits of a key are those of the event, shifted, and those of the state |
| `FsmSingleSwitch.ShiftsAre` | src/fsm_c_single_switch.c:216-316 | the shift leaves room for 16 states at the top level and for 65536 in a sub-machine |
| `FsmSingleSwitch.DefineSingleSwitch` | src/fsm_c_single_switch.c:588-637 | the printed switch: all labels of the matrices of a consolidated record, then its one body |
| `FsmSingleSwitch.SwitchSelectsCell` | src/fsm_c_single_switch.c:1164-1403 | a switch that compiles selects, in every cell of the machine, the record of that cell, and nothing for an empty one, if and only if no empty cell shares a key with a filled one |
| `FsmSingleSwitch.SwitchSelects` | src/fsm_c_single_switch.c:1164-1403 | a key selects the body of a record that claims it, and nothing when no record does |
| `FsmSingleSwitch.EmptyCellRuns` | src/fsm_c_single_switch.c:216-220 | a machine of 17 states whose switch compiles and runs a record in an empty cell |
| `FsmSingleSwitch.SingleSwitchCompiles` | src/fsm_c_single_switch.c:1164-1403 | no case label is printed twice if and only if no two filled cells share a key (section 6.8.4.2 of C11) |
| `FsmSingleSwitch.SmallMachinesCompile` | src/fsm_c_single_switch.c:216-316 | up to 16 states at the top level, or 65536 in a sub-machine, no label is printed twice and the switch is right in every cell |
| `FsmSingleSwitchRuns.Iterate` | src/fsm_c_single_switch.c:588-637 | one iteration of the generated loop, whose transition function is passed the event that the action answered, wherever the switch is right |
| `FsmSingleSwitchRuns.SingleMatchesTable` | src/fsm_c_single_switch.c:1213-1222 | an iteration is a step of the table if and only if the cell calls no transition function or its action answers the event itself |
| `FsmSingleSwitchRuns.SinglePassesOn` | src/fsm_c_single_switch.c:1213-1222 | a machine whose transition function is passed another event than with the table |
| `FsmSingleSwitchRuns.SingleRunIsTableRun` | src/fsm_c_single_switch.c:588-637 | a run is the table's run all along if and only if none of its iterations passes another event on |
| `FsmSingleSwitchRuns.Loop` | src/fsm_c_single_switch.c:588-637 | with transition functions of any kind the loop makes that many iterations; with plain transitions it is the same run as with the table |
| `FsmTree.Enumeration.PrintAllEvents` | src/fsm_c_common.c:690-750 | the enumerators of the whole header in order, with the numbers that a C compiler gives them |
| `FsmTree.Enumeration.PrintSubMachineEvents` | src/fsm_utils.c:1256-1305 | those of one sub-machine: its events, noEvent, its sub-machines, and lastEvent set back to the noEvent of the last of these |
| `FsmTree.HeaderPrintsTree` | src/fsm_utils.c:1256-1305 | the header's enumerators are exactly those of the machines of the tree, events, noEvent and lastEvent, each with its machine's number, besides numEvents and numAllEvents |
| `FsmTree.EmitRootMirrors` | src/fsm_utils.c:1256-1305 | the numbered machines are those of the tree, each with as many events and states |
| `FsmTree.FindSubMachine` | src/fsm_c_common.c:4054-4131 | the linear scan answers the first sub-machine whose half-open range holds the event, or none |
| `FsmTree.CoveringRoutes` | src/fsm_c_common.c:4054-4131 | when every range covers those of the sub-machines in it, every event of every machine is routed from the top to its own machine and index |
| `FsmTree.MirrorAt` | src/fsm_utils.c:1256-1305 | the paths of the numbered machine are those of the tree, and the machine at each path has the events, states and sub-machines of the tree's |
| `FsmTree.RoutesAllWhenShallow` | src/fsm_utils.c:1256-1305 | with the header's numbers every event of every machine of the tree is routed to its owner if and only if no sub-machine has a last sub-machine with sub-machines |
| `FsmXref.Xref.WriteAll` | src/fsm_c_pid_xref.c:561-588 | the cross reference lists, in preorder, the events and noEvent of every machine, numbered by position, and closes with numAllEvents when there are sub-machines |
| `FsmXref.Xref.IterateSubMachine` | src/fsm_c_pid_xref.c:406-436 | one subtree is one contiguous part of the listing, and its parent is the current machine again after it |
| `FsmXref.LineAtRootNumber` | src/fsm_c_pid_xref.c:406-436 | every event and every noEvent of the tree stands in the listing at the number that one running counter gives it |
| `FsmXref.NumberOfRootLine` | src/fsm_c_pid_xref.c:406-436 | every line of an event is that of an event of the tree, at its number |
| `FsmXref.CountRootMirrors` | src/fsm_c_pid_xref.c:406-436 | the running counter numbers the machines of the tree, each with as many events and states |
| `FsmXref.LastLineAtNumber` | src/fsm_c_pid_xref.c:561-588 | the last line is that of numAllEvents, or of numEvents without sub-machines, at its own number, and every event is numbered below it |
| `FsmXref.CountRoutes` | src/fsm_c_pid_xref.c:406-436 | with the numbers of the running counter every event of every machine of every tree is routed to its owner, so no two share a number |
| `FsmXref.HeaderMatchesXref` | src/fsm_utils.c:1256-1305 | header and cross reference agree on all numbers and ranges, and so on numAllEvents, if and only if no sub-machine has a last sub-machine with sub-machines |
| `FsmXref.DeepMachinesCollide` | src/fsm_utils.c:1256-1305 | a tree of five machines in which two events get the same number, routed to one of them |
| `FsmNested.LooksUpWithinBounds` | src/fsm_c.c:1216-1285 | a machine that handles a number itself finds it among its own events |
| `FsmNested.AnswersParent` | src/fsm_c.c:538-557 | a sub-machine answers an event of its parent, or its parent's noEvent |
| `FsmNested.StepKeepsGood` | src/fsm_c.c:1137-1285 | every step of nested machines keeps the calls in progress in order, each machine in hand of a number it may handle |
| `FsmNested.RunsLookUpInside` | src/fsm_c.c:1137-1285 | in every run of every tree whose actions keep to own, sub-machine and parent events, no step looks up a cell outside the table of the machine at work |
| `FsmNested.FirstCallIsRouted` | src/fsm_c.c:1137-1285 | the first action that a run calls, after one call for each machine on the way, is that of the cell to which its event is routed, in the state of the machine that owns the event |
| `FsmNested.EventReachesItsCell` | src/fsm_c.c:1137-1285 | in every shallow tree a run that starts with the number of an event of any machine first calls that event's action in that machine |
| `FsmNested.UnroutedCallsNothing` | src/fsm_c.c:1216-1285 | a run that starts with a number that is not routed comes to its end without calling anything |
| `FsmNested.RunsAnswerParents` | src/fsm_c.c:538-557 | whatever is handed back in a run is an event of the caller or its noEvent: the sub-machine's noEvent as the caller's, any other event as it is |
| `List.LinkedList.Add` | src/list.c:492-520 | appends a member; links, ends, count and ordinals stay consistent |
| `List.LinkedList.AddUnique` | src/list.c:637-647 | appends a member unless it is there, and answers its element |
| `List.LinkedList.AddOrdered` | src/list.c:541-590 | inserts in front of the first member the new one is lower than; the list stays consistent |
| `List.InsertedIsSorted` | src/list.c:523-590 | that insertion keeps the order, loses nothing, and places a member behind its equals |
| `List.LinkedList.FindNth` | src/list.c:612-622 | finds the element with an ordinal, or none |
| `List.LinkedList.RemoveNth` | src/list.c:730-738 | takes out the first element with the member found at an ordinal, which leaves the members without the one at the ordinal if and only if only repetitions stand between the two |
| `List.RemovesAtOrdinal` | src/list.c:730-738 | leaving out the first occurrence of a member is leaving out the one at the ordinal if and only if only repetitions stand between the two |
| `List.LinkedList.Remove` | src/list.c:684-719 | takes out the first element with a member; links, ends, count and ordinals stay consistent |
| `List.MoveList` | src/list.c:222-262 | the contents of the destination are its own and the source's, with ordinals; walking forward works if and only if the source had members or the destination none, walking back if and only if the destination had none |
| `Getopt.Cursor.Next` | src/getopta.c:49-93 | one call finds the next answer of the recursive parser, leaves the rest of its answers to come, and moves on lexicographically in word and letter |
| `Getopt.ParseAll` | src/getopta.c:49-93 | calling until the end gives exactly the answers of the recursive parser over the words and leaves its operands |
| `Getopt.LetterByOptions` | src/getopta.c:62-92 | a letter that the option string has before a ":" takes the rest of its word or the next word; any other letter takes nothing |
| `Getopt.UnknownLetter` | src/getopta.c:65-72 | a ':' and a letter that the option string lacks are unknown, and take nothing |
| `Getopt.SpellingIsParsed` | src/getopta.c:49-93 | options spelled so that they fit the option string, in words of letters with arguments inside or behind, are parsed as they were spelled, and the operands are left, behind "--" or without it |
| `Names.CapsFits` | src/ancestry.c:82-87 | the text never needs more room than the first pass computes |
| `Names.CapsGrows` | src/ancestry.c:99-127 | what each further character adds: an underbar for an escape, else its capital, with an underbar in front where a word starts |
| `Names.CapsKeepsLetters` | src/ancestry.c:99-127 | apart from underbars and escapes every character appears in order, a letter as its own capital and any other as it is |
| `Names.LowerCaseName` | src/ancestry.c:99-127 | a name of lower-case letters becomes the same name in capitals |
| `Names.HungarianToUnderbarCaps` | src/ancestry.c:76-134 | the allocated text, written within its room and terminated |
| `Names.StreamHungarianToUnderbarCaps` | src/ancestry.c:142-182 | the streamed text is the same |
| `Names.CapsTwice` | src/ancestry.c:76-134 | converting twice is converting once if and only if no lower-case letter directly follows a character with the 0x20 bit that is not a letter, such as a digit |
| `Names.CapsTwiceMore` | src/ancestry.c:76-134 | "1a" becomes "1A", and then "1_A" |

## Left out

- Windows path style, changing roots, base names, directory names and extensions, and guessing the style: not modelled.
- PathApi.JoinMultiple: does not model a buffer that is one of several paths, because the header promises that only for a single path.
- PathReduction.BackScan: counts without bound, while the program counts in a C int; the same holds for the forward scan.
- Sizes and positions of texts and buffers are unbounded naturals; arithmetic beyond the range of size_t is not modelled.
- FsmTable.Loop: the generated loops are cut off after any number of iterations, because they need not come to rest; the branch for events of sub-machines is not part of this loop but of the steps in `FsmNested.dfy`.
- FsmSingleSwitchRuns.Loop: asks that the switch is right in every cell, because in other cells it runs the record of another; `SwitchSelectsCell` says exactly when it is.
- Actions that answer states, `empty_cell_fn`, profiling macros other than their effect on handlers, compacted arrays, external event values, data blocks, translators, machine instances and debug output: not modelled.
- The sub-machine loops of the three switch-like back ends, shared events and states or events implemented by sub-machines: not modelled; the hierarchy follows the table back end.
- Inhibition of sub-machines: the table loop leaves the event as it is and does not come to rest; not modelled.
- FsmSingleSwitch.Combine: takes numbers as unsigned and without wrap-around, because enumerators leave room for the shift.
- FsmPopulate.ActionArray.AddToActionArray: does not model the lists of actions and of inbound and outbound transitions, which nothing else here reads.
- FsmPopulate.ActionArray.Populate: takes the lists of a matrix with its ALL marks already resolved, and does not model the lists of actions and of inbound and outbound transitions.
- Lists: comparison by a test function, copying, filtering, unique moving, reverse iteration and freeing are not modelled; allocation always succeeds.
- Getopt.Cursor.Next: does not model the message printed for an unknown option or a missing argument.
- Names.Piece: characters are taken as the C locale classifies them.
- Parsing, the layout of the generated text, HTML, RST, PlantUML and statistics output, and file handling: not modelled.
