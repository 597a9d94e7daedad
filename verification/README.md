# matter.js: commissioning, numbering and code generation, verified

This project models eight parts of matter.js in Dafny 4.11 and proves what they promise.
`dafny verify dfyconfig.toml` checks all of it.

| module | what it models |
|---|---|
| `MatterDevice` | the commissioning window and the announcements of a device: three window modes, an end callback, the PASE server, the announcement timer and its start time, and closing. Methods are asynchronous; the code between two awaits is one atomic step, and an await leaves a task behind that is resumed, or rejected, at any later time. All statements are about every interleaving |
| `EndpointNumbers`, `EndpointNumberLaws` | persistent endpoint numbers: two recursive passes over a tree of endpoint objects, a counter and a key/number store that survive restarts |
| `TlvGenerator`, `TsFile` | emission of TLV definitions in dependency order: a recursive walk of a type graph that inserts into one entry list at a saved insertion point |
| `TextStructure`, `LineFilling`, `ListAlignment`, `ExpressionLayout` | text layout: detection of nested lists with a list-state stack, greedy line filling, the alignment of list items, and the choice of a layout with a width bound |
| `InstallDatatypes` | installation of datatypes into a cluster: a depth-first closure of a possibly cyclic graph of named types with a shared visited set |
| `MatterServer` | port allocation with recycling of formerly used ports |
| `ConditionalElements` | compilation of element conditions to named feature bitmaps |
| `WindowCovering` | stepped movement of the two axes of a test window covering |

Code that works by changing objects is modelled by classes whose methods assign fields; each such
method is tied to a function of the old state, and the promises are lemmas about that function and
about runs of it. Endpoints are objects whose number the passes assign in place.

## Where the code falls short of its promise

Each of these is kept as the code has it, with a lemma that shows the failure and a lemma that
says exactly when the promise holds.

- Endpoint numbers. The comment at packages/matter.js/src/CommissioningServer.ts:609 promises unique
  endpoint ids. The comparison on line 758 is strict, so a number equal to the counter does not push
  it and is given out again (`PresetEqualToCounter`); a counter that starts at 0 gives out the number
  of the root (`CounterAtRoot`); `UniqueIff` says exactly when all numbers differ. Keys made from
  positions move between endpoints when one is removed, and then two endpoints get the same number
  (`MovedIndexRepeats`; `UniqueIff` again says exactly when). Unique ids are free text, so keys can
  coincide, and the endpoints then share a number after a restart (`KeysCoincide`,
  `RestartUniqueIff`).
- PASE server. `allowBasicCommissioning` installs the PASE server that it derives before the open
  window refuses it, and after an await behind which the mode is not checked again;
  `allowEnhancedCommissioning` installs its PASE server before the refusal as well. So a repeated
  request replaces the PASE server of an open window of either kind, with its count of errors, and a
  late one replaces that of an enhanced window by one for the default passcode
  (`RepeatedBasicRequest`, `RepeatedRequest`, `StaleContinuation`; `PaseFitsIff`,
  `PaseFitsThroughoutIff`). A PASE server can outlive its window on a device that is commissioned
  (`PaseOutlivesWindow`, `ClosedWindowPaseIff`). A window can open after closing has begun, and
  exactly two kinds of step do that (`OpenedWhileClosing`, `OpensWhileClosing`); the timer then stays
  off.
- Recycled ports. The loop removes the inspected port and still advances its position, so every
  other formerly used port is passed over (`FreePortPassedOver`, `ExhaustedFailsIff`). That matters
  only once a formerly used port is in use again, which happens exactly when a node asks for one
  itself, as a server does that is removed and added again (`ReturningServer`,
  `SeparateThroughoutIff`).
- Default storage keys. The default key of a node is the number of nodes, so after a node was removed
  that was not the last one, the next node without a key of its own is refused
  (`RefusedAfterRemovalIff`; without removals none is, `DefaultsSucceed`).
- Repeated reference to a struct without fields. The first reference renders `TlvNoArguments` and
  removes the definition; a later one renders the name of a definition that does not exist
  (`RepeatedReferenceDangles`, `DanglesIff`, `NoneDanglesIff`).
- Conditions. A condition with only a negated feature is recorded without a bitmap, `allOf` together
  with `anyOf` is compiled to a disjunction, and a negated feature overrides itself among the
  others; an empty negated code is ignored (`NegationAloneIsLost`, `SameMeaningIff`). Names of bitmaps collide with "_" in a code, with
  the code "NOT" and with the empty one (`NamesCollide`, `NamesEqualIff`).
- Window covering. A request for a position fewer than six steps away from the current one is
  ignored: an axis at rest stays, and an axis in motion goes on to its old target
  (`NearTargetUnreached`, `NearTargetIgnored`, `LandsOnTargetIff`).
- Wrapping. `wrapParagraph` pads the list prefix of a paragraph into its parameter and then never
  reads it again, so the first line of a list item is not padded to the common prefix width. The
  text of an item that takes several lines is aligned exactly when its prefix is one of the widest of
  its level (`MisalignedItem`, `AlignedIff`, `ItemAlignedIff`).

## Model

| member | source | states |
|---|---|---|
| MatterDevice.MatterDevice.EndCommissioning | packages/matter.js/src/MatterDevice.ts:440-461 | closes the window, stops the timer, clears the start time, removes the PASE server where it must, and runs the stored callback once, even if the callback ends commissioning again |
| MatterDevice.EndedTwice | packages/matter.js/src/MatterDevice.ts:452-456 | ending twice is ending once, which is why a reentrant callback changes nothing |
| MatterDevice.MatterDevice.Announce | packages/matter.js/src/MatterDevice.ts:276-319 | the step up to the first await: end once more than 15 minutes have passed since the start, announce an open window again, or go on to open a basic window on a device without fabrics |
| MatterDevice.MatterDevice.StartAnnouncement | packages/matter.js/src/MatterDevice.ts:266-274 | restarts the timer and the start time unless closing has begun, and announces |
| MatterDevice.MatterDevice.AnnounceAsCommissionable | packages/matter.js/src/MatterDevice.ts:321-343 | both guards, and what opening a window stores |
| MatterDevice.MatterDevice.AllowEnhancedCommissioning | packages/matter.js/src/MatterDevice.ts:401-418 | refuses while a basic window is open; installs the PASE server before the window is checked |
| MatterDevice.MatterDevice.AllowBasicCommissioning | packages/matter.js/src/MatterDevice.ts:420-432 | refuses while an enhanced window is open; otherwise the PASE server is being derived |
| MatterDevice.RefusedIff | packages/matter.js/src/MatterDevice.ts:401-432 | a request is refused with a flow error if and only if a window of the other kind is open, and then changes nothing |
| MatterDevice.MatterDevice.Resume | packages/matter.js/src/MatterDevice.ts:312-317 | what each continuation does behind its await, on the state as it is then; each derived PASE server is a new one |
| MatterDevice.MatterDevice.Close | packages/matter.js/src/MatterDevice.ts:485-487 | closing begins and ends commissioning in one step |
| MatterDevice.StepKeepsInvariant | packages/matter.js/src/MatterDevice.ts:266-461 | every step of every method keeps the invariant |
| MatterDevice.ReachableInvariant | packages/matter.js/src/MatterDevice.ts:440-461 | in every reachable state: a stored callback implies an open window; an open window has a PASE server; the timer runs if and only if the start time is set, and never once closing has begun; the callbacks stored so far are those that ran and the one still stored |
| MatterDevice.SecondGuardUnreachable | packages/matter.js/src/MatterDevice.ts:331-333 | the second guard of announceAsCommissionable never fires in a reachable state |
| MatterDevice.ModeStep | packages/matter.js/src/MatterDevice.ts:326-334 | no step moves between the two kinds of open window |
| MatterDevice.WindowClosesBetween | packages/matter.js/src/MatterDevice.ts:321-343 | a run that leaves one kind of open window for another mode passes through the closed window |
| MatterDevice.PaseFitsIff | packages/matter.js/src/MatterDevice.ts:401-437 | a step leaves an open window the PASE server it was opened with if and only if it is neither a continuation of allowBasicCommissioning while a window of either kind is open nor a second allowEnhancedCommissioning with another server |
| MatterDevice.PaseFitsThroughoutIff | packages/matter.js/src/MatterDevice.ts:401-437 | over every run, open windows keep the PASE server they were opened with throughout if and only if no step of the run is one of these |
| MatterDevice.RepeatedRequest | packages/matter.js/src/MatterDevice.ts:406-413 | a second request for an enhanced window is refused and still replaces the PASE server of the window |
| MatterDevice.RepeatedBasicRequest | packages/matter.js/src/MatterDevice.ts:420-437 | from every initial state, two requests for a basic window one after the other: the second is refused and still replaces the PASE server of the window |
| MatterDevice.SecondBasicRequest | packages/matter.js/src/MatterDevice.ts:420-437 | the same for any open basic window |
| MatterDevice.StaleContinuation | packages/matter.js/src/MatterDevice.ts:420-432 | three events that, from every initial state, leave an enhanced window with the PASE server of the default passcode |
| MatterDevice.PaseRemovedIff | packages/matter.js/src/MatterDevice.ts:442-448 | when a window closes its PASE server is removed if and only if the window was enhanced or the device is commissioned |
| MatterDevice.ClosedWindowPaseIff | packages/matter.js/src/MatterDevice.ts:440-451 | over every run from the step that closes a window on, while none is opened, a PASE server is installed if and only if the window was basic, the device was not commissioned when it closed, and commissioning was not ended since on the device being commissioned |
| MatterDevice.PaseOutlivesWindow | packages/matter.js/src/MatterDevice.ts:442-448 | a run that leaves a commissioned device without a window with the PASE server of the default passcode |
| MatterDevice.OpensWhileClosing | packages/matter.js/src/MatterDevice.ts:485-488 | exactly which steps open a window although closing has begun |
| MatterDevice.ClosingIff | packages/matter.js/src/MatterDevice.ts:485-488 | over every run from a new device, closing has begun if and only if the device was closed |
| MatterDevice.OpenedWhileClosing | packages/matter.js/src/MatterDevice.ts:420-488 | from every initial state, a run that opens a window after closing has begun |
| MatterDevice.CallbackRunsOnClose | packages/matter.js/src/MatterDevice.ts:452-456 | the step that closes a window runs its stored callback once, and no other step runs any |
| MatterDevice.OpeningStores | packages/matter.js/src/MatterDevice.ts:334-342 | the step that opens a window stores its callback and installs the matching PASE server |
| MatterDevice.WindowRunsItsCallback | packages/matter.js/src/MatterDevice.ts:321-456 | over any run from the opening of a window to the step that closes it, its callback runs exactly once, in that last step |
| MatterDevice.CallbackRunsAtMostOnce | packages/matter.js/src/MatterDevice.ts:401-456 | over every run a callback runs at most as often as it was handed over |
| MatterDevice.RestartSetsTime | packages/matter.js/src/MatterDevice.ts:266-273 | a restart sets the start time to now and runs the timer, unless closing has begun |
| MatterDevice.StartTimeStays | packages/matter.js/src/MatterDevice.ts:266-286 | without a restart the start time stays, or the window was ended |
| MatterDevice.DurationEndsWindow | packages/matter.js/src/MatterDevice.ts:277-286 | with no restart in between, the first announcement past the duration closes the window and stops the timer, unless that happened before |
| MatterDevice.ClosesIff | packages/matter.js/src/MatterDevice.ts:276-293 | a step closes an open window if and only if it ends commissioning, closes the device, or announces with a start time that lies more than 15 * 60 * 1000 ms back |
| MatterDevice.OpenThroughoutIff | packages/matter.js/src/MatterDevice.ts:276-293 | over every run, a window stays open throughout if and only if no step of the run is one of these |
| MatterDevice.OpensIff | packages/matter.js/src/MatterDevice.ts:321-343 | a step opens a window if and only if it requests an enhanced one or brings the derived PASE server of a basic one |
| MatterDevice.PendingLaw | packages/matter.js/src/MatterDevice.ts:276-360 | what every step leaves pending: the continued or rejected task is gone, and what it leaves behind is said for each event by the fabrics, the start time and the window alone |
| MatterDevice.ContinueIsLighter | packages/matter.js/src/MatterDevice.ts:276-360 | in every state, continuing a task makes the pending work lighter |
| MatterDevice.ContinuationsEnd | packages/matter.js/src/MatterDevice.ts:276-360 | the chain of announcing, opening a basic window and announcing it stops: from every state, a run of continuations takes at most six steps for each task that was pending, even if it ends a window |
| MatterDevice.CommissionedStaysClosed | packages/matter.js/src/MatterDevice.ts:295-310 | a commissioned device opens no window on its own, over every run |
| MatterDevice.UncommissionedOpens | packages/matter.js/src/MatterDevice.ts:311-318 | a device without fabrics that starts announcing opens a basic window |
| EndpointNumbers.CommissioningServer.InitializeEndpointIdsFromStorage | packages/matter.js/src/CommissioningServer.ts:730-763 | in pre-order, endpoints without a number get the stored one of their key, and the counter is pushed by numbers that exceed it |
| EndpointNumbers.CommissioningServer.FillAndStoreEndpointIds | packages/matter.js/src/CommissioningServer.ts:765-789 | in pre-order, endpoints still without a number get the counter, which is stored under the same key as in the first pass |
| EndpointNumbers.CommissioningServer.AssignEndpointIds | packages/matter.js/src/CommissioningServer.ts:723-728 | both passes on the endpoint objects of the tree, and the counter stored at the end |
| EndpointNumbers.CommissioningServer.RestoreCounter | packages/matter.js/src/CommissioningServer.ts:607 | the counter is read back, or keeps its initial value on a new store |
| EndpointNumbers.CommissioningServer.GetNextEndpointId | packages/matter.js/src/CommissioningServer.ts:716-721 | the counter after an optional increase |
| EndpointNumberLaws.SlotOfPath | packages/matter.js/src/CommissioningServer.ts:730-789 | both passes visit the endpoint at every path of child positions in its place of the pre-order, under the key of that path |
| EndpointNumberLaws.PathOfSlot | packages/matter.js/src/CommissioningServer.ts:730-789 | and they visit no other endpoint |
| EndpointNumberLaws.CounterOrigin | packages/matter.js/src/CommissioningServer.ts:758-760 | the counter after the first pass is the old one, or at least two above it and right behind one of the numbers |
| EndpointNumberLaws.CounterFollowsLargest | packages/matter.js/src/CommissioningServer.ts:758-760 | the counter stays if no number is above it; otherwise it ends right behind the largest number, or at it, and at it only if the number below is there as well |
| EndpointNumberLaws.PresetAboveCounter | packages/matter.js/src/CommissioningServer.ts:758-760 | a preset number above the counter pushes it, and the next endpoint gets the number behind it |
| EndpointNumberLaws.AssignNumbersAll | packages/matter.js/src/CommissioningServer.ts:723-789 | afterwards every endpoint has a number, no number it had has changed, stored numbers are restored, and new ones rise strictly in pre-order |
| EndpointNumberLaws.AssignIsConsecutive | packages/matter.js/src/CommissioningServer.ts:780-782 | new numbers are consecutive from the counter after the first pass, and the counter ends behind them |
| EndpointNumberLaws.UniqueIff | packages/matter.js/src/CommissioningServer.ts:609 | all numbers in the tree, the root's included, are pairwise distinct if and only if those of the root and the preset and restored ones are and, when a number is still missing, none of them equals the counter after the first pass |
| EndpointNumberLaws.UniqueWhenSpaced | packages/matter.js/src/CommissioningServer.ts:723-789 | if the restored numbers are distinct, none is the counter, and no two consecutive ones lie above it, all numbers below the root are distinct, with no word about the counter after the first pass |
| EndpointNumberLaws.CounterAtRoot | packages/matter.js/src/CommissioningServer.ts:270 | with a counter that starts at 0, an endpoint gets the number of the root |
| EndpointNumberLaws.PresetEqualToCounter | packages/matter.js/src/CommissioningServer.ts:758-760 | a preset number equal to the counter is given out a second time |
| EndpointNumberLaws.AssignAgain | packages/matter.js/src/CommissioningServer.ts:709-714 | a repeated assignment on an unchanged tree changes nothing |
| EndpointNumberLaws.RunKeeps | packages/matter.js/src/CommissioningServer.ts:607-728 | over every run of updates, restarts and reservations the persisted counter stays above every stored number, stored numbers stay distinct, and a stored key keeps its number |
| EndpointNumberLaws.ReturningEndpoint | packages/matter.js/src/CommissioningServer.ts:750-757 | an endpoint that comes back under its key gets its old number, whatever happened meanwhile |
| EndpointNumberLaws.UniqueWithoutPresets | packages/matter.js/src/CommissioningServer.ts:723-789 | when each endpoint's number is the one stored under its key and no process starts the counter at the number of the root, all numbers, the root's included, are distinct after every update of every run |
| EndpointNumberLaws.AssignedIsConsistent | packages/matter.js/src/CommissioningServer.ts:780-786 | an update leaves every number stored under its endpoint's key, so the next update starts that way |
| EndpointNumberLaws.MovedIndexRepeats | packages/matter.js/src/CommissioningServer.ts:774-778 | removing the first of two endpoints with position keys and adding another gives two endpoints the same number |
| EndpointNumberLaws.RestartUniqueIff | packages/matter.js/src/CommissioningServer.ts:723-789 | with a counter above the number of the root, endpoints without preset numbers that come back after a restart have numbers distinct from each other and from the root's if and only if their keys are distinct |
| EndpointNumberLaws.KeysCoincide | packages/matter.js/src/CommissioningServer.ts:734-748 | with "-" in a unique id, two endpoints of a tree have the same key |
| EndpointNumberLaws.KeysDiffer | packages/matter.js/src/CommissioningServer.ts:734-748 | keys are injective on the tree when segments are non-empty, contain no "-" and differ among siblings |
| EndpointNumberLaws.TreeIsLegal | packages/matter.js/src/CommissioningServer.ts:727-748 | with "_" in every segment no key is the key of the counter either |
| EndpointNumberLaws.IndexSegmentsDiffer | packages/matter.js/src/CommissioningServer.ts:745-747 | segments made from positions differ |
| TsFile.Block.Add | codegen/src/util/TsFile.ts:287-296 | an entry goes in front of the insertion point if that is in the list, else to the end |
| TsFile.Block.Remove | codegen/src/util/TsFile.ts:253-258 | removes the first occurrence of an entry |
| TsFile.InsertedBetween | codegen/src/util/TsFile.ts:287-293 | an insertion point that occurs once splits the list around the new entry |
| TlvGenerator.Generator.Reference | codegen/src/clusters/TlvGenerator.ts:85-190 | renders a reference in its shape, with one array for each array of the reference and the kind of its innermost type inside; defines what it needs, and touches neither finished entries nor the insertion point; a reference to a defined type changes nothing |
| TlvGenerator.RenderShaped | codegen/src/clusters/TlvGenerator.ts:85-190 | every reference is rendered as as many arrays as it has, around an enum if its innermost type is one, around a bitmap if it is one, around a name or the empty struct if it is a struct, and around the plain or the undefined type otherwise |
| TlvGenerator.OutputShaped | codegen/src/clusters/TlvGenerator.ts:85-345 | every result of a generation and every field in the body of every struct has that shape |
| TlvGenerator.Generator.DefineDatatype | codegen/src/clusters/TlvGenerator.ts:386-458 | defines a type once and with it only types reachable from it; terminates because fewer types are undefined at each call |
| TlvGenerator.Generator.DefineStruct | codegen/src/clusters/TlvGenerator.ts:309-345 | a struct is emitted behind everything its fields needed, directly followed by its interface, and leaves no entry if it has no fields |
| TlvGenerator.Generator.DefineFields | codegen/src/clusters/TlvGenerator.ts:314-330 | one rendered expression for each field that is neither disallowed nor deprecated, in order; only the first reference to a struct without fields can be rendered without its name |
| TlvGenerator.Generator.DefineBitmap | codegen/src/clusters/TlvGenerator.ts:347-384 | a bitmap is emitted right behind the finished entries, ahead of those enums of its bit ranges that are not emitted yet; afterwards all of them are defined |
| TlvGenerator.Generator.DefineEnum | codegen/src/clusters/TlvGenerator.ts:294-307 | an enum is emitted right behind the finished entries |
| TlvGenerator.InsertionPoint | codegen/src/util/TsFile.ts:375-383 | with structs in progress, a new entry goes right behind the finished entries and in front of all of those structs |
| TlvGenerator.OrderedIffAcyclic | codegen/src/clusters/TlvGenerator.ts:309-458 | each struct's entry comes after the entries of all types its fields use, directly or through arrays, if and only if no cycle goes through a defined type |
| TlvGenerator.Generator.ReferenceAll | codegen/src/clusters/TlvGenerator.ts:85-458 | for any sequence of references, each rendered in its shape, as the fields of all structs are: exactly the reachable types are emitted, each once, structs with their rendered fields and interface, and in dependency order if and only if the reachable graph has no cycle; each reference is rendered knowing exactly the types that the earlier ones lead to, and no rendered name lacks a definition if and only if no struct without fields is referred to twice |
| TlvGenerator.EmittedIff | codegen/src/clusters/TlvGenerator.ts:294-458 | a generation defines a type if and only if a chain leads to it from one of the references, by fields that are neither disallowed nor deprecated and by the enums of ranges of bits, and it is no struct without such fields |
| TlvGenerator.NamesEmitted | codegen/src/clusters/TlvGenerator.ts:168-180 | a rendered reference names an emitted definition or nothing, except when it repeats a reference to a struct whose definition was removed |
| TlvGenerator.DanglesIff | codegen/src/clusters/TlvGenerator.ts:332-335 | of any sequence of references, one is rendered as a name without a definition if and only if it is to a struct without fields that an earlier one leads to |
| TlvGenerator.RepeatedReferenceDangles | codegen/src/clusters/TlvGenerator.ts:408-411 | the second of two references to a struct without fields is rendered as a name without a definition |
| TlvGenerator.NoneDanglesIff | codegen/src/clusters/TlvGenerator.ts:309-411 | every name that a generation renders, as a result or in the body of a struct, has a definition if and only if no struct without fields is referred to at two places |
| InstallDatatypes.Installation.Install | codegen/src/mom/chip/load-chip.ts:112-135 | terminates on cyclic graphs; appends datatypes that are reachable from the referencer, each once and behind one that refers to it, and installs all that the referencer and the added datatypes refer to |
| InstallDatatypes.InstallDatatypes | codegen/src/mom/chip/load-chip.ts:137-138 | the datatypes appended to a cluster are exactly those with a chain of names from it, each name that of an element at any depth below the one before and none of them global; each once, behind its original children, and each named below the cluster or below one appended before it |
| InstallDatatypes.WalkedIsReachable | codegen/src/mom/chip/load-chip.ts:112-135 | a walk that starts with nothing installed installs exactly what is reachable |
| InstallDatatypes.TypesIff | codegen/src/mom/chip/load-chip.ts:112-135 | the names that a referencer refers to are exactly the type names of the elements below it, at any depth |
| InstallDatatypes.NeededIff | codegen/src/mom/chip/load-chip.ts:112-135 | a datatype is reachable if and only if a chain of such names leads to it |
| TextStructure.StructureDetector.DetectList | codegen/src/util/string.ts:50-87 | the list state after a paragraph, which `DetectIff` describes |
| TextStructure.DetectTwice | codegen/src/util/string.ts:50-87 | detecting the same paragraph again changes nothing, and nesting grows by at most one |
| TextStructure.DetectIff | codegen/src/util/string.ts:50-87 | the lists open at a paragraph: none without a bullet or an enumeration mark; a list of the kind of its mark innermost otherwise, the open one of that kind if the mark can continue it, with all lists outside it still open, and a new one inside the open lists if not; exactly these states and no others |
| TextStructure.PlainClosesLists | codegen/src/util/string.ts:50-87 | a paragraph without a bullet and without an enumeration mark is outside all lists |
| TextStructure.PrefixLaw | codegen/src/util/string.ts:94-100 | the prefix of an item is its text up to the first space |
| TextStructure.StructureDetector.ProcessLevel | codegen/src/util/string.ts:114-155 | terminates; flattening the level gives back its paragraphs in order, each at the depth of the list state after it |
| TextStructure.CanonicalUnique | codegen/src/util/string.ts:89-92 | a structure whose lists start with a paragraph and never follow each other directly is determined by its paragraphs and depths |
| TextStructure.DetectStructure | codegen/src/util/string.ts:102-158 | there is one sequence of list states in which each paragraph nests behind the one before, and the result is the only canonical structure that puts each paragraph at the depth of its state, prefix widths included |
| LineFilling.GreedyIsOptimal | codegen/src/util/string.ts:190-214 | greedy filling needs the fewest lines among all splits whose lines fit or are single segments |
| LineFilling.GreedyIsUnique | codegen/src/util/string.ts:190-214 | there is only one greedy split |
| LineFilling.Formatter.WrapParagraph | codegen/src/util/string.ts:160-231 | the appended lines are a greedy split of the segments, padded and indented, behind a blank line if text precedes |
| LineFilling.WrappingIsOptimal | codegen/src/util/string.ts:160-231 | no other order-preserving split has fewer lines, and all segments are conserved in order |
| ListAlignment.LineIs | codegen/src/util/string.ts:160-231 | a line is its segments behind the padding; in a list, the lines but the first are indented by the width of the widest prefix and one more; other paragraphs have no such indent |
| ListAlignment.LineWithinLimit | codegen/src/util/string.ts:190-214 | a line is no longer than the limit or holds one segment, and is longer than the limit with the first segment of the next line |
| ListAlignment.BlankLineIff | codegen/src/util/string.ts:160-166 | what was there stays in front, and a blank line follows it if and only if there was any and there are segments |
| LineFilling.NothingLost | codegen/src/util/string.ts:190-214 | without padding and indentation, the lines of a split are all segments in order |
| ListAlignment.MaxPrefixIsMax | codegen/src/util/string.ts:139-147 | the prefix width of a list level is that of the widest prefix of its paragraphs |
| ListAlignment.AlignedIff | codegen/src/util/string.ts:168-183 | the text of a wrapped list item starts in the same column on all of its lines if and only if it has one line or its prefix with the space behind it is as wide as the hanging indent |
| ListAlignment.ItemAlignedIff | codegen/src/util/string.ts:139-183 | on a level of the detected structure, an item of several lines is aligned if and only if no prefix of the level is wider than its own |
| ListAlignment.MisalignedItem | codegen/src/util/string.ts:168-183 | beside an item "10. c", the item "1. a b" is wrapped at width 5 into two lines whose text starts in two different columns |
| LineFilling.PackRows | codegen/src/mom/common/generate-element.ts:43-58 | the rows are the joined properties of a greedy split: in order, below the limit unless a single property, and full except for the last |
| LineFilling.RowIs | codegen/src/mom/common/generate-element.ts:43-58 | each row is made of the properties between its two ends |
| LineFilling.RowWithinLimit | codegen/src/mom/common/generate-element.ts:43-58 | a row is shorter than 100 characters or holds one property, and is not with the first property of the next row |
| LineFilling.JoinedAt | codegen/src/mom/common/generate-element.ts:43-58 | the properties stand in a row in order, with ", " between them and nothing else |
| LineFilling.PackingIsOptimal | codegen/src/mom/common/generate-element.ts:43-58 | no other order-preserving split into rows below the limit or of one property has fewer rows |
| ExpressionLayout.ChooseExpressionLayout | codegen/src/util/TsFile.ts:478-537 | each result has an exact description over the whole list of entries |
| ExpressionLayout.LayoutIff | codegen/src/util/TsFile.ts:478-537 | each layout is chosen if and only if its condition holds, in terms of the number of entries, a line break or a comment in some entry, the last character of the prefix, and the length of the joined line against 120 or 124 |
| ExpressionLayout.CommentedIff | codegen/src/util/TsFile.ts:488-493 | an entry counts as commented if and only if "/*", "//" or " = " stands at some position of it |
| ExpressionLayout.TrimIs | codegen/src/util/TsFile.ts:510-527 | a trimmed entry is the part between the white space at its two ends |
| ExpressionLayout.JoinedAt | codegen/src/util/TsFile.ts:565-571 | the trimmed entries stand in the joined line in order, with ", " between them and nothing else |
| ExpressionLayout.SingleLineIs | codegen/src/util/TsFile.ts:565-571 | a single line consists of the line prefix, the prefix, the joined entries and the suffix; single spaces surround the entries if and only if the prefix opens an object and the entries do not start with "{" |
| ExpressionLayout.CountedLength | codegen/src/util/TsFile.ts:545-571 | the length that decides on the layout is that of the single line, and two more if the prefix opens an array, or an object whose entries start with "{" |
| ExpressionLayout.SingleLineIff | codegen/src/util/TsFile.ts:514-527 | single-line layout is chosen if and only if no entry is multi-line or commented and the counted length of the joined entries is below the limit |
| ExpressionLayout.SingleLineFits | codegen/src/util/TsFile.ts:565-571 | a single-line rendering is shorter than 120 columns, or than 124 with one entry, and is one line |
| MatterServer.MatterServer.GetNextMatterPort | packages/matter.js/src/MatterServer.ts:78-119 | the outcome of a request and the formerly used ports afterwards |
| MatterServer.MatterServer.RecyclePort | packages/matter.js/src/MatterServer.ts:104-112 | the search through the formerly used ports, as the loop with its removals does it |
| MatterServer.LeastFreePort | packages/matter.js/src/MatterServer.ts:97-101 | a default request returns the least port from 5540 that is neither in use nor formerly used while one exists below 65536 |
| MatterServer.RecyclesIffExhausted | packages/matter.js/src/MatterServer.ts:102-103 | recycling starts if and only if the range is exhausted |
| MatterServer.RecycleInspects | packages/matter.js/src/MatterServer.ts:104-112 | only formerly used ports at even positions are inspected, and the first free one of them is found |
| MatterServer.RecycleKeeps | packages/matter.js/src/MatterServer.ts:104-112 | the recycled port and the inspected ones before it are removed, the others keep their order |
| MatterServer.ExhaustedFailsIff | packages/matter.js/src/MatterServer.ts:102-115 | exactly when a request on an exhausted range fails |
| MatterServer.FreePortPassedOver | packages/matter.js/src/MatterServer.ts:104-115 | a free formerly used port behind one in use is passed over and the request fails |
| MatterServer.OldestIsRecycled | packages/matter.js/src/MatterServer.ts:102-116 | while no formerly used port is in use, the oldest is recycled, and the error means that there is none |
| MatterServer.SeparateIff | packages/matter.js/src/MatterServer.ts:78-194 | a step keeps the formerly used ports distinct and apart from those in use if and only if it does not register a node on a formerly used port that the node asks for |
| MatterServer.SeparateThroughoutIff | packages/matter.js/src/MatterServer.ts:78-194 | the same over every run of additions and removals |
| MatterServer.OldestAfterRun | packages/matter.js/src/MatterServer.ts:102-116 | after every run in which no node asks for a formerly used port, a default request on an exhausted range gets the oldest one, and fails only if there is none |
| MatterServer.ReturningServer | packages/matter.js/src/MatterServer.ts:127-156 | a server that is removed and added again puts its formerly used port back in use |
| MatterServer.NextPortIsUnused | packages/matter.js/src/MatterServer.ts:90-95 | a port that is handed out is not in use, and a desired one is granted if and only if it is not in use |
| MatterServer.MatterServer.AddCommissioningServer | packages/matter.js/src/MatterServer.ts:127-137 | keeps all ports distinct; every way to fail and what it leaves behind: a server whose storage or preparation fails has its port but is not registered |
| MatterServer.MatterServer.AddCommissioningController | packages/matter.js/src/MatterServer.ts:178-194 | keeps all ports distinct; every way to fail |
| MatterServer.MatterServer.Remove | packages/matter.js/src/MatterServer.ts:146-220 | removes the first entry of the node; only the port of a server becomes formerly used |
| MatterServer.StorageKeyLaw | packages/matter.js/src/MatterServer.ts:127-137 | a given key is used as it is; the default one is the decimal text of the number of nodes |
| MatterServer.DefaultsSucceed | packages/matter.js/src/MatterServer.ts:127-137 | as long as no node is removed, no node is refused for its default key |
| MatterServer.RefusedAfterRemovalIff | packages/matter.js/src/MatterServer.ts:127-156 | after the removal of one of the nodes that were added with default keys, the next such node is refused if and only if the removed one was not the last |
| ConditionalElements.CompiledMeaning | codegen/src/clusters/ConditionalElements.ts:53-65 | what the bitmaps of a condition mean for every feature set |
| ConditionalElements.SameMeaningIff | codegen/src/clusters/ConditionalElements.ts:53-65 | the bitmaps have the meaning of the condition for every feature set if and only if the condition names features by `allOf` or `anyOf` alone without the negated one, or by both with the same single feature |
| ConditionalElements.IllPosedDiffers | codegen/src/clusters/ConditionalElements.ts:53-65 | for every other condition, a feature set on which they disagree |
| ConditionalElements.NegationAloneIsLost | codegen/src/clusters/ConditionalElements.ts:55-64 | a condition with nothing but a negated feature has no bitmap |
| ConditionalElements.NamesDiffer | codegen/src/clusters/ConditionalElements.ts:83-91 | bitmaps over codes without "_" other than "NOT" have different names |
| ConditionalElements.NamesEqualIff | codegen/src/clusters/ConditionalElements.ts:84-88 | for all codes, two bitmaps get the same name if and only if their codes fall into the same words |
| ConditionalElements.NamesCollide | codegen/src/clusters/ConditionalElements.ts:84-88 | with "_" in a code, with the code "NOT" and with the empty code, two bitmaps get the same name |
| ConditionalElements.ConditionalElements.TranslateConditions | codegen/src/clusters/ConditionalElements.ts:53-65 | the names and definitions of the bitmaps of a condition |
| ConditionalElements.ConditionalElements.AddElements | codegen/src/clusters/ConditionalElements.ts:67-81 | adds names to the listed models and leaves all other records alone |
| ConditionalElements.ConditionalElements.constructor | codegen/src/clusters/ConditionalElements.ts:35-47 | a name is recorded for a model if and only if it belongs to a component that lists the model |
| ConditionalElements.RecordedMeaning | codegen/src/clusters/ConditionalElements.ts:35-51 | a feature set satisfies some component that lists a model as mandatory (or optional) if and only if it matches one of the bitmaps recorded for that model |
| ConditionalElements.MandatoryMeaning | codegen/src/clusters/ConditionalElements.ts:35-81 | some component that applies lists a model as mandatory if and only if a bitmap recorded as mandatory for the model matches |
| ConditionalElements.OptionalMeaning | codegen/src/clusters/ConditionalElements.ts:35-81 | the same for optional models |
| WindowCovering.TestWindowCoveringServer.HandleMovement | chip-testing/src/cluster/TestWindowCoveringServer.ts:45-94 | starts a movement of one axis and leaves the other alone |
| WindowCovering.TestWindowCoveringServer.HandleMovementTick | chip-testing/src/cluster/TestWindowCoveringServer.ts:104-141 | one tick of one axis |
| WindowCovering.TestWindowCoveringServer.HandleStopMovement | chip-testing/src/cluster/TestWindowCoveringServer.ts:143-147 | stops both timers and keeps the movements |
| WindowCovering.RunStaysInRange | chip-testing/src/cluster/TestWindowCoveringServer.ts:45-147 | on every run of movements, ticks and stops with targets in 0..10000 the position stays in 0..10000 |
| WindowCovering.MovementStaysBetween | chip-testing/src/cluster/TestWindowCoveringServer.ts:68-141 | after a movement to a target at least six steps away and until the next one, every position lies between its start and its target, whatever was in progress |
| WindowCovering.LandsAfterSix | chip-testing/src/cluster/TestWindowCoveringServer.ts:68-141 | where every axis is after six undisturbed periods: on the target if it is at least six steps away, else on the target of the movement in progress, else where it was |
| WindowCovering.PositionAfter | chip-testing/src/cluster/TestWindowCoveringServer.ts:68-141 | each period of an undisturbed movement puts the axis a sixth of the way further, without its fraction, and the sixth period puts it on the target |
| WindowCovering.StopHolds | chip-testing/src/cluster/TestWindowCoveringServer.ts:143-147 | behind a stop every period leaves the axis where it is |
| WindowCovering.StoppedOnTheWay | chip-testing/src/cluster/TestWindowCoveringServer.ts:104-147 | also after any number of periods of a movement |
| WindowCovering.LandsOnTargetIff | chip-testing/src/cluster/TestWindowCoveringServer.ts:68-75 | an undisturbed request on any axis ends on its target if and only if the target is at least six steps away, the movement in progress has the same target, or the axis rests on it |
| WindowCovering.NearTargetIgnored | chip-testing/src/cluster/TestWindowCoveringServer.ts:73-75 | halfway to 10000, a request for 5000 is ignored and the axis ends on 10000 |
| WindowCovering.NearTargetUnreached | chip-testing/src/cluster/TestWindowCoveringServer.ts:73-75 | a request for a position five steps ahead of an axis at rest is ignored |

## Left out

- Broadcasters, sessions, exchanges, BLE, mDNS and crypto: a PASE server is an identity. Fabrics are present or absent, and what broadcasters send is not recorded.
- The announcement mutex: a timer announcement is a task that runs at any later time, so the model allows more orders than the mutex does.
- End callbacks that call other methods than endCommissioning: nothing in endCommissioning follows the callback but awaits, so such calls are the next events of the run.
- A device without broadcasters: its loops over them do not await, so it takes only the runs in which these tasks continue at once.
- A second `Time.nowMs()` within one step: time passes only between steps.
- Storage errors and the factory reset of `CommissioningServer`: the store is a map that always answers.
- Cross-cluster types, the status code special case, nullable wrappers, bounds, imports, documentation, numeric bitmap bodies and the check for duplicate names in `TlvGenerator` and `Block`.
- `installChildren` of `load-chip.ts`: the fields it copies into empty enums and bitmaps are taken to be untyped, so they refer to nothing; object prototypes are not type names.
- Splitting text into paragraphs and segments by regular expressions, and `formatStructure`: paragraphs and segments are inputs.
- The rendering of layouts other than the single line, comments and file saving in `TsFile`, and white space other than space, tab, carriage return and line feed in `trim`.
- Overlapping `addCommissioningServer` calls: the port is taken before and the node is registered after an await, so the distinct-port statement is for calls one after another.
- Translation of feature codes to names in `define`: definitions hold codes.
- `MatterController`, `CommissioningController`, JSON storage backends, logging, shell, examples and test apps: their logic rests on classes that are not part of this model.
