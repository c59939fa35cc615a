# Safe changes, guarded stores and the catalog batch of k8s-clue

A Dafny 4.11 model of the parts of k8s-clue that must hold for every document,
every delivery order and every rerun:

- **Scalar patches.** A field path such as `spec.containers[name=web].image` is
  parsed and followed through two views of one manifest, the loaded object and
  the YAML node tree with offsets. Scalars are spliced into the text, and a plan
  carries its own rollback (`FieldPath`, `Manifest`, `ObjectPatch`, `ActionPolicy`,
  `PatchPlan`, `Splice`, `SpanTree`, `Materialize`, `DeclaredPatch`).
- **Recovery authorization.** A merged diff is accepted only when it is exactly
  the approved changes (`RecoveryMerge`).
- **Kustomize closure and pinned snapshot.** A work list over references with
  limits, and a state machine of concurrent readers of one revision while the
  branch moves (`RepositoryPath`, `KustomizeClosure`, `SnapshotProtocol`).
- **Field ownership.** A textual overlap test against JSON Patch
  (`PatchOwnership`).
- **Guarded tables.** Status ladders, approvals, approved snapshots and alerts
  over whole runs of calls (`StatusLadder`, `Approvals`, `ApprovedSnapshots`,
  `AlertLedger`).
- **Agreement and idempotence.** Bulk against pointwise access, field contracts
  and their diff, and the rerunnable catalog batch with its archive
  (`AccessPolicy`, `SchemaContract`, `Upsert`, `Folds`, `CatalogBatch`,
  `CatalogContents`, `CatalogRuns`, `CatalogArchive`, `CatalogDaily`).

`dafny verify dfyconfig.toml` checks the whole project.

How the program is represented:

- Tables are maps keyed by the columns of their unique constraint. One SQL
  statement is one atomic step, a failed statement rolls its transaction back,
  and concurrent callers are arbitrary sequences of steps.
- A manifest is a recursive value. Positions in it are lists of steps. Writing
  scalars is shown to be a simultaneous substitution at positions.
- Library calls (YAML loading, JSON dumping, digests, UUIDs, case folding) and
  the outside world (clocks, source answers, repository contents) are
  parameters. Times are integers or opaque strings, floats are reals.
- Python's `==` identifies `1`, `1.0` and `True`; `same_scalar` does not. Both
  are modelled, each where the program uses it.

Where a promised property does not hold of the code, the code is kept, an input
is given, and the exact condition is proved:

- Rollback restores the object except when a replacement writes the `name` of an
  item that its own path selects by name, and then no order of it does
  (`UndoneIffNameSafe`, `PlanRestoresIffNameSafe`). Only `selector_fix` plans can
  do so (`SelectorFixCanRename`, `AlwaysRollsBackIff`). The recovery check needs no
  such condition, because it also reads the approved values in the desired
  manifest.
- The listing order of replacements decides nothing except when one renames a list
  item that another selects, by the name the item loses or by the name it takes.
  Some order is then refused (`RenameComesLast`, `AcceptedInEveryOrderIff`,
  `AcceptsEveryOrderIff`), and a chain of renames can move a write to another item
  (`ChainMovesWrite`). Only `selector_fix` plans can do so
  (`SelectorFixOrderDecides`, `OrderNeverDecidesIff`).
- A path that leads to a scalar of the object leads to its text except when another
  item of a list that it selects in shows the same name, for example as a number
  (`NumberIsRival`, `NodeGetIff`); the change is then refused.
- An accepted Kustomize reference is returned as the place it leads to except when
  that place begins or ends with white space (`TrimmedReferenceMoves`,
  `ReturnedIsDestinationIff`).
- The ownership test protects field paths without selectors, and no readable
  path with one (`SelectorIsNotProtected`, `ProtectedIffNoSelector`).
- Delivery order is irrelevant except between two terminal statuses
  (`TwoTerminalsConflict`, `DecidedIffAtMostOneTerminal`).
- Recording an approved workflow again, or late, is harmless except when two
  snapshots tie for the latest completion time (`TiedWorkflowsConflict`,
  `DecidedIffNoTies`) or a command has no completion time, in which case it
  counts as completed when it is recorded (`OlderWorkflowOverwrites`, `ReplaySafeIffTimed`).
- `record_approved_workflow_snapshots` is described as running after the workflow
  succeeded, but reads only approvals and commands, so a failed run is recorded
  too (`FailedRunIsStored`, `OnlySucceededIff`).
- The bulk query does not ask for membership in the organization, the pointwise
  check does. For a named organization the two agree for exactly the active members
  and those for whom the query returns nothing (`NonMemberIsSelected`,
  `AgreeIffMember`). For the empty organization id they can differ for members too
  (`EmptyOrganizationDisagrees`, `MembershipDecidesIffOrganizationNamed`).
- Permuting the keys of a payload leaves its contract alone except when it flattens
  one path to two types (`KeyOrderIsIrrelevantIff`).
- A backfill starts from the input of the first run except when a same-day rerun
  found something else than the file it left alone, or the source had nothing
  and nothing was archived (`SameDayRerunIsNotReplayed`, `EmptyDayIsNotReplayed`,
  `ReplayRestoresIff`). The recorded hash may not be that of the file
  (`RecordedHashMatchesFileIff`).
- The daily batch is described as reading the snapshot of the extraction tasks, but
  reads the status of the last task with the payloads of the first one that found
  something (`LoadedIsHistory`, `NoDataLoadsOldPayloads`, `LoadedIsExtractedIff`).
  A backfill leaves that input alone except when its own status is another one, or it
  finds something where nothing was archived (`BackfillLoadsTheSameIff`).

## Model

| member | source | states |
|---|---|---|
| `FieldPath.FieldPathParts` | src/domains/gitops/source_patch.py:848-865 | the one-pass scan with a bracket depth returns the parts between the dots outside brackets, and refuses an unbalanced text |
| `FieldPath.FieldPathSegments` | src/domains/gitops/source_patch.py:835-845 | the segments of the text, or the empty list exactly when a part is malformed |
| `Text.StripIs` | src/domains/gitops/recovery_merge.py:37-38 | stripping a trimmed text that white space surrounds gives that text |
| `FieldPath.KeyCharIff` | src/domains/gitops/source_patch.py:33 | a key is made of the letters, the digits, underscore and hyphen, and nothing else |
| `FieldPath.ParseOfPrint` | src/domains/gitops/source_patch.py:835-865 | parsing the printed form of valid segments gives the segments back |
| `FieldPath.PrintOfParse` | src/domains/gitops/source_patch.py:835-865 | printing the segments of an accepted text gives the text back, and the segments are valid |
| `FieldPath.ParseIsInverseOfPrint` | src/domains/gitops/source_patch.py:835-865 | a text parses to a path exactly when the path is valid and prints as that text |
| `FieldPath.ParseIsInjective` | src/domains/gitops/source_patch.py:835-865 | two accepted texts with the same segments are the same text |
| `FieldPath.SplitAtDot` | src/domains/gitops/source_patch.py:848-865 | the splitter cuts at a dot whenever the text on either side of it is balanced |
| `FieldPath.CutFallsOnBoundary` | src/domains/gitops/recovery_merge.py:89-98 | when a path and either side of one of its dots parse, both sides parse and the segments are the concatenation |
| `Manifest.SelectByName` | src/domains/gitops/source_patch.py:868-885 | the item chosen by `[name=...]` is the only one whose `name` is that string; none or several choose nothing |
| `Manifest.PyEqIsEquality` | src/domains/gitops/source_patch.py:811-812 | comparing documents with `==` confuses nothing but booleans, integers and floats of one value |
| `Manifest.ObjectValueAt` | src/domains/gitops/source_patch.py:868-885 | the navigation loop returns the value at the position the path resolves to, or fails |
| `Manifest.GetIsAtLocate` | src/domains/gitops/source_patch.py:868-885 | reading a path is reading one position of the object, and fails exactly when the path has no position |
| `Manifest.LocateIsInjective` | src/domains/gitops/source_patch.py:868-885 | different paths never reach the same position of one object |
| `Manifest.LocateAppend` | src/domains/gitops/recovery_merge.py:89-103 | a concatenated path resolves to the position of its beginning followed by that of its rest |
| `Manifest.SetIsOverlay` | src/domains/gitops/source_patch.py:888-910 | writing over a scalar replaces the one leaf at the path's position and nothing else |
| `Manifest.LocateOverlay` | src/domains/gitops/source_patch.py:888-910 | replacing leaves other than names of list items changes the position of no path |
| `Manifest.GetOverlay` | src/domains/gitops/source_patch.py:888-910 | after such replacements every path reads what it read, with the replaced leaves in it |
| `Manifest.ApplyAllIsOverlay` | src/domains/gitops/source_patch.py:792-805 | writing one scalar after another, none disturbing the path of a later one, equals substituting all of them at once |
| `Manifest.WritesCommute` | src/domains/gitops/source_patch.py:792-805 | writes to different paths give the same object in both of two orders in which none disturbs the path of a later one |
| `Manifest.UndisturbedLocate` | src/domains/gitops/source_patch.py:868-910 | a write over a scalar moves no path, except those that select in the same list by the name an item loses or takes |
| `Manifest.DisturbedIsLost` | src/domains/gitops/source_patch.py:868-910 | renaming a list item makes every path through the name it loses, or through a name it takes from another item, unreadable and unwritable |
| `Manifest.OverlayRestores` | src/domains/gitops/source_patch.py:888-910 | putting every changed leaf back restores the whole object |
| `Manifest.AtPyEq` | src/domains/gitops/source_patch.py:811-812 | objects equal under Python's loose equality have their leaves at the same positions, pairwise equal |
| `ObjectPatch.MaterializedInAnyOrder` | src/domains/gitops/source_patch.py:787-805 | a list of independent changes, in which none renames an item that another one selects, is accepted and produces the same object in every order |
| `ObjectPatch.AcceptedInEveryOrderIff` | src/domains/gitops/source_patch.py:787-805 | matching changes are accepted in every order, always with the same object, if and only if none renames an item that another one selects by its old or its new name |
| `ObjectPatch.RenameComesLast` | src/domains/gitops/source_patch.py:787-805 | a rename and a change below the renamed item are accepted with the rename last and refused with the rename first |
| `ObjectPatch.MaterializedChangesOnlyTargets` | src/domains/gitops/source_patch.py:787-805 | when no change renames an item that a later one selects, each target ends with its desired scalar and every other leaf is as it was |
| `ObjectPatch.ChainMovesWrite` | src/domains/gitops/source_patch.py:787-805 | when an item gives its name to another one, a change of the first item that is listed last is written into the second one |
| `ObjectPatch.InversesRestore` | src/domains/gitops/source_patch.py:747-763 | materializing the changes and then their inverses gives the original object back |
| `ObjectPatch.OtherPathUnchanged` | src/domains/gitops/source_patch.py:888-910 | a write leaves every other path that it does not disturb reading what it read |
| `ObjectPatch.SequentialIsMaterialized` | src/domains/gitops/recovery_merge.py:80-103 | when no change renames an item that a later one selects, checking each current value against the intermediate object is the same as checking against the first one |
| `ObjectPatch.SequentialReads` | src/domains/gitops/recovery_merge.py:80-103 | a projection that goes through uses real paths, and a path ending in a selected item's name reads that name |
| `ObjectPatch.WriteReadsBack` | src/domains/gitops/source_patch.py:868-910 | a written scalar is read back at its path if and only if the path does not write the `name` of the item it selects, or the scalar was there already |
| `ObjectPatch.RenameIsNotUndone` | src/domains/gitops/source_patch.py:747-763 | a list containing such a rename is undone by no order of the inverses, in whatever order it was written |
| `ObjectPatch.UndoneIffNameSafe` | src/domains/gitops/source_patch.py:747-763 | for every order of the changes and every order of their inverses, the inverses restore the object if and only if no change writes the `name` of an item its path selects |
| `PatchPlan.HasDistinctFields` | src/domains/gitops/source_patch.py:311-334 | the duplicate test finds exactly the lists with two equal field paths |
| `PatchPlan.ValidateScalarPatchPlan` | src/domains/gitops/source_patch.py:311-348 | accepts exactly the plans with a known action, well-formed digests and path, and one to four distinct readable scalar replacements that the action allows and whose rollback reverses each of them |
| `PatchPlan.ValidateItem` | src/domains/gitops/source_patch.py:336-348 | one replacement passes exactly when it is a real scalar change, the action allows it and its reverse is in the rollback list |
| `PatchPlan.ValidPlanIff` | src/domains/gitops/source_patch.py:311-348 | a plan is accepted if and only if its metadata are well formed and it has one to four allowed scalar changes of different parsed fields, whose inverses are its rollback in some order |
| `PatchPlan.PlanIsIdentified` | src/domains/gitops/source_patch.py:311-330 | an accepted plan names a known action, a SHA-256 digest, a commit of forty to sixty-four hexadecimal digits and a path that stays in the repository |
| `PatchPlan.RollbackIsPermutationOfInverses` | src/domains/gitops/source_patch.py:311-348 | the rollback list of an accepted plan is a permutation of the inverses of its replacements |
| `PatchPlan.ResolvedIsWellFormed` | src/domains/gitops/source_patch.py:311-348 | the replacements of an accepted plan have pairwise different parsed paths and real changes |
| `PatchPlan.PlanRestoresIffNameSafe` | src/domains/gitops/source_patch.py:311-348 | for an accepted plan whose current values match, and for every order of its two lists, rolling back restores the object if and only if no replacement renames a selected item |
| `PatchPlan.PlanAcceptedInEveryOrderIff` | src/domains/gitops/source_patch.py:311-348 | the manifest accepts a matching plan in every order of its replacements if and only if they are independent |
| `ActionPolicy.AllowedIsNameSafe` | src/domains/gitops/source_patch.py:359-399 | every action but `selector_fix` fixes the last key of the path, so none of its replacements writes the `name` of an item it selects |
| `ActionPolicy.AllowedIsNotKind` | src/domains/gitops/source_patch.py:359-399 | no action but `selector_fix` can write the kind of the manifest |
| `ActionPolicy.ReplicaScaleIff` | src/domains/gitops/source_patch.py:366-372 | scaling is allowed if and only if it raises `spec.replicas` from at least one to at most ten |
| `ActionPolicy.MemoryBytesIff` | src/domains/gitops/source_patch.py:410-418 | a text is read as a number of bytes if and only if it is decimal digits, valued by their places, with the unit Ki, Mi or Gi |
| `ActionPolicy.OomMemoryIff` | src/domains/gitops/source_patch.py:373-376 | a memory fix is allowed if and only if it raises a memory request or limit to at most four gibibytes |
| `ActionPolicy.ProbeFixIff` | src/domains/gitops/source_patch.py:377-388 | a probe fix is allowed if and only if it raises a timeout to at most thirty seconds, or sets a port from 1 to 65535, or sets a path that starts with a slash |
| `ActionPolicy.ImageIff` | src/domains/gitops/source_patch.py:361-365 | an image action is allowed if and only if it replaces a non-blank image by a non-blank image |
| `ActionPolicy.SelectorFixIff` | src/domains/gitops/source_patch.py:389-398 | a selector fix is allowed if and only if it replaces a non-blank label of the selector or the pod template by a non-blank one |
| `ActionPolicy.DigestIff` | src/domains/gitops/source_patch.py:323 | a digest is `sha256:` and sixty-four lower-case hexadecimal digits, and nothing else is one |
| `ActionPolicy.SafePathStaysInside` | src/domains/gitops/source_patch.py:420-424 | a safe manifest path is relative and, followed from any directory, only leads further down |
| `PatchPlan.PlanWrites` | src/domains/gitops/source_patch.py:787-805 | every replacement of an applied plan of an action but `selector_fix` read its current value before and reads its desired value after |
| `PatchPlan.ReplicasOnlyGrow` | src/domains/gitops/source_patch.py:366-372 | a matching scaling plan is one replacement, after which the manifest has more replicas than before, at most ten |
| `PatchPlan.MemoryOnlyGrows` | src/domains/gitops/source_patch.py:373-376 | every quantity that a matching memory plan writes stands for more bytes than the one before it, at most four gibibytes |
| `PatchPlan.PlanRestoresUnlessSelectorFix` | src/domains/gitops/source_patch.py:311-348 | an accepted plan of any other action than `selector_fix` can be rolled back in every order |
| `PatchPlan.SelectorFixCanRename` | src/domains/gitops/source_patch.py:389-398 | an accepted `selector_fix` plan and a Deployment it matches that no order of its rollback restores |
| `PatchPlan.AlwaysRollsBackIff` | src/domains/gitops/source_patch.py:311-399 | all accepted plans of an action can be rolled back, on every manifest they match, if and only if the action is not `selector_fix` |
| `PatchPlan.SelectorFixOrderDecides` | src/domains/gitops/source_patch.py:389-398 | an accepted `selector_fix` plan that a matching Deployment refuses as it is listed and accepts in another order |
| `PatchPlan.OrderNeverDecidesIff` | src/domains/gitops/source_patch.py:311-399 | all accepted plans of an action give one object in every order of their replacements, on every manifest they match, if and only if the action is not `selector_fix` |
| `Splice.SpliceDescending` | src/domains/gitops/source_patch.py:806-810 | the descending rewriting loop yields the text with exactly the given spans replaced |
| `Splice.SplicedInAnyOrder` | src/domains/gitops/source_patch.py:806-810 | the text does not depend on the order in which the edits are listed |
| `Splice.GapsAreKept` | src/domains/gitops/source_patch.py:806-810 | every character outside the spans is kept, in order, moved by the length change of the edits before it |
| `Splice.SplicedBack` | src/domains/gitops/source_patch.py:806-810 | splicing the replaced slices back at the shifted spans restores the text character for character |
| `Splice.UndoingIsSpliceable` | src/domains/gitops/source_patch.py:806-810 | the spans at which replaced slices are put back never overlap or coincide when no written text is empty |
| `SpanTree.NodeValueAt` | src/domains/gitops/source_patch.py:913-935 | the node navigation loop returns the node that raw key texts and raw name texts lead to |
| `SpanTree.NavigationsAgree` | src/domains/gitops/source_patch.py:868-935 | whenever the object and the node navigation both succeed they reach the same position, and the node loads to the value |
| `SpanTree.NodeGetIff` | src/domains/gitops/source_patch.py:913-935 | a path that leads to a value in the object leads to a node if and only if, wherever it selects, no second item of the list shows the name as the text of a scalar |
| `SpanTree.NumberIsRival` | src/domains/gitops/source_patch.py:925-933 | in a list with the names `"5"` and `5` the selector of the first one leads to a value and to no node |
| `SpanTree.SelectorsAgree` | src/domains/gitops/source_patch.py:868-935 | a typed and a raw name selector that both choose an item choose the same item |
| `SpanTree.RawKeyClash` | src/domains/gitops/source_patch.py:957-961 | without unique raw key texts the two navigations can reach different values |
| `SpanTree.LeavesAreDisjoint` | src/domains/gitops/source_patch.py:913-935 | scalar leaves at different positions have spans that do not overlap |
| `SpanTree.PathsHaveDisjointSpans` | src/domains/gitops/source_patch.py:792-805 | different field paths that reach scalars in both views reach spans that do not overlap |
| `Materialize.EditsAreDisjoint` | src/domains/gitops/source_patch.py:787-807 | the spans collected for distinct paths are in bounds and apart; only empty spans can coincide |
| `Materialize.CollectSpans` | src/domains/gitops/source_patch.py:785-803 | the loop returns the spans with their encodings and the object to expect exactly when every current value matches, every target is one patchable scalar and every write goes through |
| `Materialize.MaterializeScalarReplacements` | src/domains/gitops/source_patch.py:766-813 | returns the text with the target spans replaced exactly when kind, digest, current values, encodings, span test and reload test all pass |
| `Materialize.OneDigest` | src/domains/gitops/source_patch.py:776-777 | a source is accepted under one digest only, whatever is changed in it |
| `Materialize.OnlyTheApprovedManifest` | src/domains/gitops/source_patch.py:773-777 | when different manifests have different digests, changes approved for one manifest are accepted on that manifest only, and it is a Deployment |
| `Materialize.PlanIsForOneManifest` | src/domains/gitops/source_patch.py:735-763 | the same for the forward list and for the rollback list of a plan |
| `Materialize.EncodedLoadsBack` | src/domains/gitops/source_patch.py:938-954 | whatever the style, a written scalar loads as that scalar; only a scalar that is no string cannot be written into a quoted or block scalar |
| `Materialize.EditForIff` | src/domains/gitops/source_patch.py:787-805 | a change has an edit if and only if its path leads to one scalar node that is plain or gets a string; the edit covers exactly that node and loads as the desired value |
| `Materialize.MatchingChangeHasEditIff` | src/domains/gitops/source_patch.py:788-805 | a change whose current value is found can be written if and only if no selector of its path is shown by two items, and its scalar is plain or becomes a string |
| `Materialize.PlainStays` | src/domains/gitops/source_patch.py:938-954 | a plain text is written as it is if and only if it has one line and loads as itself |
| `Materialize.SingleQuotedStays` | src/domains/gitops/source_patch.py:940-941 | into single quotes a text is written between apostrophes with its own apostrophes doubled |
| `Materialize.AcceptedInAnyOrder` | src/domains/gitops/source_patch.py:766-813 | another listing order of independent replacements gives the same verdict and the same text |
| `Materialize.AcceptsEveryOrderIff` | src/domains/gitops/source_patch.py:766-813 | an accepted list is accepted in every order, with the same text, if and only if its changes are independent |
| `Materialize.AcceptedChangesOnlyTargets` | src/domains/gitops/source_patch.py:766-813 | when no change renames an item that a later one selects, the patched text loads to an object with exactly the leaves of the original, the desired scalar at each target and every other leaf equal |
| `Materialize.RollbackIsByteExact` | src/domains/gitops/source_patch.py:735-763 | when the original scalars are written as the encoder writes them and the style is kept, the inverse changes can be spliced and return the original text |
| `Materialize.RollbackRestoresSource` | src/domains/gitops/source_patch.py:747-763 | splicing the inverses of an accepted patch, in every order, returns the approved source itself |
| `Materialize.EncodedIsNotEmpty` | src/domains/gitops/source_patch.py:938-954 | the encoder never writes an empty text |
| `Materialize.RollbackIsAccepted` | src/domains/gitops/source_patch.py:747-813 | when the patched text parses to the expected object, its rollback is accepted in every order and returns the approved source |
| `Materialize.PlanRollbackRestoresSource` | src/domains/gitops/source_patch.py:747-763 | the rollback list of a validated plan, spliced into the accepted patch, returns the approved source |
| `Materialize.PlanKeepsKind` | src/domains/gitops/source_patch.py:359-399 | a plan of any action but `selector_fix` leaves a Deployment a Deployment |
| `Materialize.PlanRollbackIsAccepted` | src/domains/gitops/source_patch.py:747-813 | `materialize_scalar_rollback` accepts every applied plan of an action but `selector_fix`, with the digest of the patched manifest, and returns the approved source |
| `DeclaredPatch.MaterializeDeclared` | src/domains/gitops/source_patch.py:580-660 | patches the addressed document of a source without anchors exactly when its type is supported, the pending changes find their values and the reloaded documents are the expected ones; the text has only the pending spans replaced |
| `DeclaredPatch.AddressedIff` | src/domains/gitops/source_patch.py:606-621 | without an identity the source has one document, with one exactly one of its objects has that identity, and that document is patched |
| `DeclaredPatch.DeclaredChangesOnlyTargets` | src/domains/gitops/source_patch.py:632-660 | an accepted patch has changes; its text loads to the same number of documents, all as before but the addressed one, in which every target holds its desired value and every other scalar its old one |
| `DeclaredPatch.PendingEdits` | src/domains/gitops/source_patch.py:632-652 | collects the spans of exactly the changes that are not there already, and fails exactly when one of them is stale or not a scalar |
| `DeclaredPatch.EditsLieApart` | src/domains/gitops/source_patch.py:654-655 | spans that pass the duplicate test do not overlap, even if a path were listed twice |
| `DeclaredPatch.PendingProducesTheSame` | src/domains/gitops/source_patch.py:632-652 | writing values that are there already adds nothing to the object the pending changes produce |
| `DeclaredPatch.ToleranceIsPendingOnly` | src/domains/gitops/source_patch.py:580-660 | tolerating applied values accepts a patch exactly when patching the pending changes alone is accepted |
| `DeclaredPatch.RetryIsNoOp` | src/domains/gitops/source_patch.py:586-592 | a retry that finds every approved value, even a renamed name, returns the source unchanged, exactly when the source loads to its own documents |
| `DeclaredPatch.ThirdValueConflicts` | src/domains/gitops/source_patch.py:586-592 | a target holding neither the current nor the desired value refuses the whole patch |
| `RecoveryMerge.ApprovedChangeContract` | src/domains/gitops/recovery_merge.py:45-70 | reads a contract exactly when the list has one to four scalar changes on different parsable fields |
| `RecoveryMerge.ContractIff` | src/domains/gitops/recovery_merge.py:45-70 | a list is a contract if and only if it has one to four changes of one scalar into another at different parsed fields, and the contract holds exactly their paths and values |
| `RecoveryMerge.ProjectedParentValue` | src/domains/gitops/recovery_merge.py:80-103 | the loop returns the reported object with every approved change below it applied in turn, or fails on the first mismatch |
| `RecoveryMerge.RecoveryDiffMatchesApprovedScope` | src/domains/gitops/recovery_merge.py:168-234 | the early returns and the loop over the changes end in a verdict that is fixed for every diff by `AuthorizedIff`, `ConvergedIff`, `EntriesAreAccounted` and `AuthorizationIsSound` |
| `RecoveryMerge.AuthorizedIff` | src/domains/gitops/recovery_merge.py:168-204 | a diff is authorized if and only if its changes are in the approved scope, no part of the target is blank, it is in the namespace of the target, its resource text is a kind, a slash and the name of the target, and its manifest, read by paths, has that kind and name and that namespace or none; kinds agree up to case |
| `RecoveryMerge.OneTarget` | src/domains/gitops/recovery_merge.py:168-204 | one diff is never authorized for two targets that differ in namespace, name or folded kind, whatever was approved for each |
| `RecoveryMerge.ConvergedIff` | src/domains/gitops/recovery_merge.py:215-220 | a diff without changes is accepted if and only if it is reported as converged, with every entry, and the manifest holds the approved values |
| `RecoveryMerge.PartitionIsFirstSlash` | src/domains/gitops/recovery_merge.py:181-191 | the resource text names the kind before its first slash and the name after it |
| `RecoveryMerge.Accumulate` | src/domains/gitops/recovery_merge.py:222-234 | the loop refuses when one change does, and otherwise covers exactly the paths of the matches |
| `RecoveryMerge.ProjectionIsWellFormed` | src/domains/gitops/recovery_merge.py:80-103 | when the desired manifest holds the approved values, relative paths of a projection are distinct and rename no selected item |
| `RecoveryMerge.ProjectInAnyOrder` | src/domains/gitops/recovery_merge.py:80-103 | the projection does not depend on the order of the approved changes |
| `RecoveryMerge.ProjectionIsExact` | src/domains/gitops/recovery_merge.py:106-165 | an object equal to the projection differs from the reported one at exactly the approved leaves |
| `RecoveryMerge.AcceptedChangeIsExact` | src/domains/gitops/recovery_merge.py:106-165 | a change that matches approved paths changes exactly those leaves, from the approved current to the approved desired value |
| `RecoveryMerge.AuthorizationIsSound` | src/domains/gitops/recovery_merge.py:168-234 | in an accepted diff every intended change is exactly the approved changes in its scope, every approved change is made, some change is intended, and the desired manifest holds the approved values |
| `RecoveryMerge.EntriesAreAccounted` | src/domains/gitops/recovery_merge.py:106-165 | every entry of an accepted diff with changes is intended or converged; an intended one touches an approved path; one that touches approved paths is exactly their changes, from the old state to the new one, or from what was desired to what is there |
| `RecoveryMerge.HarmlessEntryIsAccepted` | src/domains/gitops/recovery_merge.py:106-165 | a converged entry that touches no approved path, or reports approved values as being there already, may stand anywhere in an accepted diff |
| `RecoveryMerge.FalsyIff` | src/domains/gitops/recovery_merge.py:37-38 | what the code takes as missing is null, whatever equals zero, and the empty texts and containers |
| `RecoveryMerge.ApprovedScalarsAreAccepted` | src/domains/gitops/recovery_merge.py:168-234 | a diff that reports exactly the approved scalars, each changed as approved, is accepted whenever the desired manifest holds them |
| `RecoveryMerge.ApprovedParentIsAccepted` | src/domains/gitops/recovery_merge.py:80-165 | a diff that reports one parent object holding the current values, changed by exactly the approved changes below it, is accepted |
| `RecoveryMerge.VerdictIgnoresNumberTypes` | src/domains/gitops/recovery_merge.py:106-165 | a reported parent may differ from the projection in number types only, since the comparison is Python's |
| `RepositoryPath.NormFoldIsWalk` | src/domains/gitops/repository_discovery.py:1227-1253 | the stack pass of path normalization is walking the components; a walk above the root leaves a leading `..` |
| `RepositoryPath.ReferenceIsWalk` | src/domains/gitops/repository_discovery.py:1227-1253 | normalizing a reference joined to its directory is walking the reference from that directory |
| `RepositoryPath.AcceptedReferenceStaysInside` | src/domains/gitops/repository_discovery.py:1227-1253 | a reference is accepted if and only if it is not remote, not blank, without backslash, relative, and a walk from its directory that ends below the root at a place whose trimmed text is a tree path; that tree path is returned |
| `RepositoryPath.TrimmedReferenceMoves` | src/domains/gitops/repository_discovery.py:1227-1253 | the reference `a /b/..` leads to the directory with a trailing blank and is returned as another one |
| `RepositoryPath.ReturnedIsDestinationIff` | src/domains/gitops/repository_discovery.py:1227-1253 | an accepted reference is returned as the place it leads to if and only if that place neither begins nor ends with white space |
| `RepositoryPath.TreePathIsInside` | src/domains/gitops/repository_discovery.py:1785-1792 | an accepted tree path has only plain components |
| `RepositoryPath.TreePathIff` | src/domains/gitops/repository_discovery.py:1785-1792 | a path becomes its non-empty components joined by slashes, or nothing if and only if there are none, or one is `.` or `..`, or there is a backslash |
| `RepositoryPath.RepositoryDirectories` | src/domains/gitops/repository_discovery.py:1073-1080 | the directories are the root and exactly the proper ancestors of blobs |
| `KustomizeClosure.KustomizationPath` | src/domains/gitops/repository_discovery.py:1083-1097 | a file is chosen if and only if exactly one of the accepted names, put into the directory, is a blob |
| `KustomizeClosure.ChosenIsInDirectory` | src/domains/gitops/repository_discovery.py:1083-1097 | the chosen file has the directory as its parent and an accepted name after its last slash |
| `KustomizeClosure.ChosenIffOnly` | src/domains/gitops/repository_discovery.py:1083-1097 | among normalized blob paths a file is chosen if and only if it is the only blob with that parent and an accepted name |
| `KustomizeClosure.InOrderIff` | src/domains/gitops/repository_discovery.py:1041-1063 | a directory is in order if and only if it has one readable kustomization file, each of whose references leads to a directory or to a readable blob |
| `KustomizeClosure.ClosureIsLeast` | src/domains/gitops/repository_discovery.py:1041-1063 | the reachable directories and the closure are the least ones that hold the source and from which no reference leads out |
| `KustomizeClosure.CollectableIff` | src/domains/gitops/repository_discovery.py:986-1039 | a tree can be collected if and only if every reachable directory is in order, at most 500 blobs lie at or below the source by their components, and the closure has at most 500 files and five mebibytes |
| `KustomizeClosure.Fetch` | src/domains/gitops/repository_discovery.py:1012-1039 | a file is added exactly when it exists, can be read and keeps both limits; the byte counter stays the sum of stored sizes |
| `KustomizeClosure.ClosedContainsReachable` | src/domains/gitops/repository_discovery.py:986-1070 | a set with the source that is closed under references contains every reachable directory |
| `KustomizeClosure.WalkIsComplete` | src/domains/gitops/repository_discovery.py:986-1070 | when the work list is empty the visited directories are the reachable ones and the stored files are the closure |
| `KustomizeClosure.WalkDirectories` | src/domains/gitops/repository_discovery.py:1041-1063 | the work list ends on every finite, possibly cyclic tree, with the closure or with a failure that no collection can avoid |
| `KustomizeClosure.CollectKustomizeSourceContents` | src/domains/gitops/repository_discovery.py:986-1070 | succeeds exactly when every reachable directory is in order and the limits hold; its keys are the reachable closure and the counter is the sum of the lengths |
| `SnapshotProtocol.EvaluatesIsFunctional` | src/domains/gitops/repository_discovery.py:686-801 | a validation has one outcome for one answer per path |
| `SnapshotProtocol.Assemble` | src/domains/gitops/repository_discovery.py:771-801 | returns all responses in order exactly when every source validated and none is missing; otherwise the first unexpected error, or else exactly the missing and failed sources, each with its last error |
| `SnapshotProtocol.StepKeepsInvariant` | src/domains/gitops/repository_discovery.py:382-442 | every step of readers, client and branch head keeps the cache pinned to the expected revision with one fetch per path |
| `SnapshotProtocol.RunKeepsInvariant` | src/domains/gitops/repository_discovery.py:382-442 | the invariant holds in every state of every interleaving |
| `SnapshotProtocol.SnapshotIsSafe` | src/domains/gitops/repository_discovery.py:686-801 | in every interleaving, with calls that may fail, all fetches are at the expected revision, no path is fetched twice, and a returned batch holds the outcome of every source on one shared answer per path |
| `SnapshotProtocol.AnsweredAtExpectedHead` | src/domains/gitops/repository_discovery.py:717-769 | in every interleaving validations or source errors are answered only in a step that finds the head at the expected revision, after an earlier step found it there |
| `SnapshotProtocol.AnsweredAfterAll` | src/domains/gitops/repository_discovery.py:758-763 | nothing is answered on what was read before every source has been validated |
| `SnapshotProtocol.MovedHeadIsReported` | src/domains/gitops/repository_discovery.py:764-769 | a confirmation reports a change if and only if the head is no longer the expected revision |
| `SnapshotProtocol.OtherHeadIsConflict` | src/domains/gitops/repository_discovery.py:717-722 | a first look at the head is a conflict if and only if it is not the expected revision, and then the run stays in conflict and never fetches anything |
| `SnapshotProtocol.CallMayEnd` | src/domains/gitops/repository_discovery.py:382-442 | a running call can end with the content at the expected revision and with every failure of the client |
| `SnapshotProtocol.NeverStuck` | src/domains/gitops/repository_discovery.py:686-801 | in every interleaving a batch that has not answered can take a step |
| `SnapshotProtocol.BatchesAgree` | src/domains/gitops/repository_discovery.py:686-801 | two runs that return a batch return the same batch when no path was answered differently |
| `SnapshotProtocol.BatchIsDetermined` | src/domains/gitops/repository_discovery.py:686-801 | without failing calls a returned batch is a function of the expected revision |
| `PatchOwnership.PatchOwnsField` | src/domains/gitops/kustomize_edit_source.py:281-314 | the scan answers whether some operation of the list overlaps a protected field in its path, or in its source when it moves |
| `PatchOwnership.EditElsewhere` | src/domains/gitops/kustomize_edit_source.py:281-314 | an edit at a diverging JSON Pointer leaves the value at the tokens as it was (section 4 of RFC 6902) |
| `PatchOwnership.PointerRoundTrip` | src/domains/gitops/kustomize_edit_source.py:317-323 | a text decodes to a list of tokens if and only if it is their encoding (sections 3 and 4 of RFC 6901) |
| `PatchOwnership.ArrayIndexIff` | src/domains/gitops/kustomize_edit_source.py:281-314 | a token is an array index if and only if it is the decimal text of that number without leading zeros (section 4 of RFC 6901) |
| `PatchOwnership.AddedIff` | src/domains/gitops/kustomize_edit_source.py:281-314 | a value can be added if and only if the place is in an object, or in a list at an index up to its end or at `-` (section 4.1 of RFC 6902) |
| `PatchOwnership.AppendedIsLast` | src/domains/gitops/kustomize_edit_source.py:281-314 | adding at `-` appends to the list (section 4.1 of RFC 6902) |
| `PatchOwnership.OperationIff` | src/domains/gitops/kustomize_edit_source.py:281-314 | when add, replace, remove and the existence part of test apply, and what is read afterwards; no other operation changes a document |
| `PatchOwnership.ReplaceIsRemoveAndAdd` | src/domains/gitops/kustomize_edit_source.py:281-314 | replacing is removing and then adding (section 4.3 of RFC 6902) |
| `PatchOwnership.MoveIsRemoveAndAdd` | src/domains/gitops/kustomize_edit_source.py:281-314 | moving is removing and then adding, refused into the moved value; copying is adding (sections 4.4 and 4.5 of RFC 6902) |
| `PatchOwnership.AddedIsRead` | src/domains/gitops/kustomize_edit_source.py:281-314 | an added value is read where it was added (section 4.1 of RFC 6902) |
| `PatchOwnership.ReplacedIff` | src/domains/gitops/kustomize_edit_source.py:281-314 | a value is replaced if and only if there is one, and the new one is read there (section 4.3 of RFC 6902) |
| `PatchOwnership.RemoveUndoesAdd` | src/domains/gitops/kustomize_edit_source.py:281-314 | removing what was added at a new place gives the document back (sections 4.1 and 4.2 of RFC 6902) |
| `PatchOwnership.MovedIsRead` | src/domains/gitops/kustomize_edit_source.py:281-314 | a moved or copied value is read at its new place, and copying is adding (sections 4.4 and 4.5 of RFC 6902) |
| `PatchOwnership.NoOverlapDiverges` | src/domains/gitops/kustomize_edit_source.py:317-323 | a JSON Pointer that does not overlap a plain field text leads, after decoding (section 4 of RFC 6901), to tokens that diverge from it |
| `PatchOwnership.OverlapIff` | src/domains/gitops/kustomize_edit_source.py:317-323 | a JSON Pointer overlaps a plain field if and only if it leads, after decoding, to the field, above it or below it |
| `PatchOwnership.OwnedIff` | src/domains/gitops/kustomize_edit_source.py:281-302 | an operation owns a plain field if and only if it changes the document and writes at, above or below the field, or copies or moves from there |
| `PatchOwnership.UnownedFieldUnchanged` | src/domains/gitops/kustomize_edit_source.py:281-323 | a patch that applies and does not own a plain field leaves its value, or its absence, unchanged |
| `PatchOwnership.PlainFieldIsProtected` | src/domains/gitops/kustomize_edit_source.py:281-323 | the same for every document and patch: a field path without selectors is protected |
| `PatchOwnership.SelectorIsNotProtected` | src/domains/gitops/kustomize_edit_source.py:317-323 | a readable field with a selector can be removed by a patch that does not own it |
| `PatchOwnership.ProtectedIffNoSelector` | src/domains/gitops/kustomize_edit_source.py:281-323 | the textual test protects a field path if and only if it has no selector or no document can hold it |
| `StatusLadder.WorkflowLadderIsWellFormed` | src/domains/gitops/repository.py:78-154 | the run ranks are bounded by eight, and only terminal statuses have the highest rank |
| `StatusLadder.StepLadderIsWellFormed` | src/domains/gitops/repository.py:96-173 | the step ranks are bounded by three, and only terminal statuses have the highest rank |
| `StatusLadder.WorkflowStagesInOrder` | src/domains/gitops/repository.py:78-94 | the ranks of runs follow the seven stages in their order and then the two terminal statuses, and rank nothing else |
| `StatusLadder.StepStagesInOrder` | src/domains/gitops/repository.py:96-110 | the ranks of steps follow pending, running and then the three terminal statuses, and rank nothing else |
| `StatusLadder.AcceptsIff` | src/domains/gitops/repository.py:139-173 | the guard accepts a different status if and only if the stored one is not terminal, and, when it is a stage, the new one is neither unknown nor before it |
| `StatusLadder.AcceptedRaisesRank` | src/domains/gitops/repository.py:139-173 | an accepted status change raises the rank if and only if one of the two statuses is in the table |
| `StatusLadder.StoredIsTop` | src/domains/gitops/repository.py:139-173 | after any deliveries the stored status is one with the highest rank delivered |
| `StatusLadder.StoredIsFarthest` | src/domains/gitops/repository.py:139-173 | delivered in any order, the stored status comes before none that was delivered |
| `StatusLadder.DecidedIffAtMostOneTerminal` | src/domains/gitops/repository.py:139-173 | a set of statuses decides the stored one, in every order and repetition, if and only if it holds at most one terminal status |
| `StatusLadder.TwoTerminalsConflict` | src/domains/gitops/repository.py:78-154 | delivered in either order, the first of succeeded and failed stays |
| `StatusLadder.StatusTable.Upsert` | src/domains/gitops/repository.py:1476-1574 | inserts a row, or overwrites its status and payload exactly when the guard accepts the change, and reports which |
| `StatusLadder.StatusTable.Update` | src/domains/gitops/repository.py:1518-1539 | updates an existing row, guarded only when the update carries a status, and reports whether it did |
| `StatusLadder.UpdateTakesEffect` | src/domains/gitops/repository.py:1518-1539 | an update never inserts; it takes effect without a status always, with one exactly when an upsert of it would, and changes the named columns of one row |
| `StatusLadder.NeverGoesBack` | src/domains/gitops/repository.py:139-173 | over any run of upserts and updates a row never goes back to a stage before the one it was in |
| `StatusLadder.TerminalIsFinal` | src/domains/gitops/repository.py:139-173 | a row with a terminal status keeps that status over every later run of calls |
| `StatusLadder.MutationsAreBounded` | src/domains/gitops/repository.py:1476-1574 | the number of reported status changes of a row is at most the rank it has reached |
| `StatusLadder.MutationsAreChanges` | src/domains/gitops/repository.py:1476-1574 | over any run the statements report exactly the changes of the stored status |
| `StatusLadder.AtMostEightMutations` | src/domains/gitops/repository.py:78-154 | at most eight status changes of one run, and three of one step, are reported over any run of calls |
| `StatusLadder.StoredStatus` | src/domains/gitops/repository.py:1476-1574 | the stored status of a row is the fold of the statuses upserted for it, whatever happens to other rows |
| `StatusLadder.DeliveryOrderDoesNotMatter` | src/domains/gitops/repository.py:1476-1574 | two runs of upserts with the same statuses for a row, at most one of them terminal, store the same status |
| `Approvals.ApprovalTable.RequestWorkflowApproval` | src/domains/gitops/repository.py:1576-1614 | inserts an approval, or refreshes it exactly while it is open |
| `Approvals.ApprovalTable.ResolveIfOpen` | src/domains/gitops/repository.py:1616-1654 | resolves exactly an approval of that workspace that is open and not expired, and reports whether it did |
| `Approvals.OtherWorkspaceNeverResolves` | src/domains/gitops/repository.py:1616-1654 | over any run an approval is never resolved from another workspace than the one it was requested in |
| `Approvals.OpenRequestIsResolvedIff` | src/domains/gitops/repository.py:1576-1654 | an approval requested while new or open is resolved next if and only if that happens in the workspace of its first request and before its new expiry, and then holds what was asked last with the decision |
| `Approvals.ClosedIsFrozen` | src/domains/gitops/repository.py:71-74 | a row that has left the open statuses never changes again over any run of calls |
| `Approvals.ResolvedOnce` | src/domains/gitops/repository.py:1616-1654 | under closing resolutions at most one resolve on an approval reports true |
| `Approvals.NotResolvedAfterExpiry` | src/domains/gitops/repository.py:1616-1654 | with a clock that does not go back, once an approval that is not requested again has expired, no resolve reports true |
| `Approvals.ResolvesOnceIffClosing` | src/domains/gitops/repository.py:1616-1654 | in every run whose resolutions use a status each approval is resolved at most once, if and only if the status is not an open one |
| `ApprovedSnapshots.PrepareApprovedResourceSnapshots` | src/domains/gitops/repository.py:213-279 | prepares one snapshot per command exactly when every command agrees with the run, and otherwise none |
| `ApprovedSnapshots.SnapshotTable.Record` | src/domains/gitops/repository.py:1847-1955 | upserts the snapshots of all commands and counts them exactly when the run exists, every approval is granted and used, and every command is completed, eligible and for the run; otherwise changes nothing |
| `ApprovedSnapshots.StoredIsLatest` | src/domains/gitops/repository.py:1930-1954 | after any upserts every delivered key holds a snapshot with its latest completion time |
| `ApprovedSnapshots.DecidedIffNoTies` | src/domains/gitops/repository.py:1930-1954 | the recorded snapshots decide the table, in every order and repetition, if and only if no key has two latest ones |
| `ApprovedSnapshots.TiedWorkflowsConflict` | src/domains/gitops/repository.py:1930-1954 | of two workflows that complete at one time the one recorded last is stored |
| `ApprovedSnapshots.StoredIsApproved` | src/domains/gitops/repository.py:1847-1955 | every stored snapshot was made by a command of a recorded run whose approvals were all granted and used by commands, and whose commands were all completed, eligible and for that run, workspace, binding and cluster |
| `ApprovedSnapshots.RecordedIff` | src/domains/gitops/repository.py:213-279 | a call records an entry if and only if the workflow is approved in that sense and a command with supported fields has that key, origin, document and completion time, or the clock without one |
| `ApprovedSnapshots.ApprovedIsStored` | src/domains/gitops/repository.py:1847-1955 | every snapshot of an approved workflow that was recorded is stored, or one of its resource that completed no earlier |
| `ApprovedSnapshots.RecordingOrderDoesNotMatter` | src/domains/gitops/repository.py:1847-1955 | recording the same workflows in another order, at other clocks, or some of them again, stores the same table when every snapshot has a completion time and there are no ties |
| `ApprovedSnapshots.OlderWorkflowOverwrites` | src/domains/gitops/repository.py:270-277 | an older workflow without a completion time, recorded again, replaces the state of a newer one |
| `ApprovedSnapshots.UntimedReplayOverwrites` | src/domains/gitops/repository.py:270-277 | every workflow with a snapshot without completion time has a rival, another run that completes later, whose state it overwrites when recorded again |
| `ApprovedSnapshots.ReplaySafeIffTimed` | src/domains/gitops/repository.py:213-279 | recording a workflow again changes no settled resource, in every history with one workflow per run id and at every clock, if and only if each of its snapshots has a completion time |
| `ApprovedSnapshots.FailedRunIsStored` | src/domains/gitops/repository.py:1867-1881 | the snapshots of a failed run are stored |
| `ApprovedSnapshots.OnlySucceededIff` | src/domains/gitops/repository.py:1847-1955 | however workflows are recorded, stored snapshots come from succeeded runs if and only if every workflow that records something has succeeded |
| `AlertLedger.AlertEvents.UpsertExternalAlertEvent` | src/domains/alert/repository.py:80-149 | inserts the event, or merges the delivery into the stored row by the case rules, and touches no other event |
| `AlertLedger.OnlyNewIncidentReopens` | src/domains/alert/repository.py:80-149 | over any stretch of a history without a change of incident a resolved event stays resolved, an acknowledged one acknowledged and a promoted one promoted |
| `AlertLedger.MarkedIffInEpisode` | src/domains/alert/repository.py:80-149 | over any history an event is acknowledged (or promoted), by whom and when, if and only if that is the last such action on an existing row since the last change of incident |
| `AlertLedger.IncidentStays` | src/domains/alert/repository.py:80-149 | once an incident is named the event always has one |
| `AlertLedger.StoredIncident` | src/domains/alert/repository.py:80-149 | over any history the stored incident is the last one named |
| `AlertLedger.ResolvedIffEpisodeResolved` | src/domains/alert/repository.py:80-149 | over any history an event is resolved if and only if some delivery since the last change of incident resolved it |
| `AlertLedger.StoredReading` | src/domains/alert/repository.py:80-149 | over any history status and reading are those of the last delivery that resolves, starts an episode, or finds its episode unresolved |
| `AlertLedger.StoredLabels` | src/domains/alert/repository.py:80-149 | over any history the labels are those of the last delivery and the series is the last one named |
| `AlertLedger.OneIncidentStaysResolved` | src/domains/alert/repository.py:80-149 | when deliveries name at most one incident, the event ends resolved if and only if some delivery was resolved |
| `AccessPolicy.PermissionsAreScopedPolicy` | src/domains/identity/repository.py:857-889 | for a named organization the role permissions are the enabled policies of the scope, where any scoped row, even a disabled one, hides the global policies |
| `AccessPolicy.GrantedIff` | src/domains/identity/repository.py:857-936 | on consistent tables a permission is granted if and only if the user is an active service administrator, or an active member with an active role on the resource through an active group membership, for which an active deciding policy row grants it |
| `AccessPolicy.ErrorIff` | src/domains/identity/repository.py:857-936 | the check fails if and only if a member who is no service administrator has a role outside the vocabulary |
| `AccessPolicy.AdminIsGranted` | src/domains/identity/repository.py:912-913 | an active service administrator is granted every permission on every resource of every table |
| `AccessPolicy.DisabledAdminIsChecked` | src/domains/identity/repository.py:912-915 | a service administrator who is not active is refused without membership or role, like everyone |
| `AccessPolicy.GrantedIsSelected` | src/domains/identity/repository.py:50-114 | what the pointwise check grants, the bulk statement selects |
| `AccessPolicy.SelectedIsGranted` | src/domains/identity/repository.py:904-936 | what the bulk statement selects for a member, the pointwise check grants |
| `AccessPolicy.BulkAgreesWithPointwise` | src/domains/identity/repository.py:981-1002 | for every table contents and every non-admin in a named organization, access is granted if and only if the user is a member and the resource is in the bulk result |
| `AccessPolicy.AgreeIffMember` | src/domains/identity/repository.py:904-1002 | for a consistent table, a named organization and a user who is no service administrator, the two name the same resources if and only if the user is an active member or the bulk result is empty |
| `AccessPolicy.NonMemberIsSelected` | src/domains/identity/repository.py:50-114 | in every organization a user of a group who is no member is refused by the check and served by the statement |
| `AccessPolicy.EmptyOrganizationDisagrees` | src/domains/identity/repository.py:857-889 | with an empty organization id a disabled row hides the global policy from the statement but not from the check |
| `AccessPolicy.MembershipDecidesIffOrganizationNamed` | src/domains/identity/repository.py:50-114 | that rule about members holds on all consistent tables if and only if the organization id is not empty |
| `SchemaContract.ContractFromPayload` | src/domains/datacatalog/schema_contract.py:63-71 | the noting loop returns the fold of the flattened fields in which a first type wins and an unknown type is overwritten |
| `SchemaContract.NestedField` | src/domains/datacatalog/schema_contract.py:40-60 | a scalar below nested keys, the first one not empty, is one field, named by the keys joined with dots |
| `SchemaContract.ArrayField` | src/domains/datacatalog/schema_contract.py:40-60 | an array is one field of type array, followed by the fields of its first item below `[]` |
| `SchemaContract.FlattenParts` | src/domains/datacatalog/schema_contract.py:40-60 | a list of payloads has the fields of its first one, and an object has those of its members one after another |
| `SchemaContract.NotedType` | src/domains/datacatalog/schema_contract.py:63-71 | the type of a path is one of its flattened types, and is unknown only if all of them are |
| `SchemaContract.DecidedIffOneTypePerPath` | src/domains/datacatalog/schema_contract.py:63-71 | flattened fields decide the contract, in every order and repetition, if and only if no path has two different known types |
| `SchemaContract.ReorderedFlattens` | src/domains/datacatalog/schema_contract.py:40-60 | permuting object keys at any depth changes no flattened field |
| `SchemaContract.ContractIgnoresKeyOrder` | src/domains/datacatalog/schema_contract.py:40-71 | permuting object keys at any depth leaves the contract as it is when no flattened path has two known types |
| `SchemaContract.NotedIsFirstKnown` | src/domains/datacatalog/schema_contract.py:63-71 | the contract gives a path its first determined type in document order |
| `SchemaContract.KeyOrderIsIrrelevantIff` | src/domains/datacatalog/schema_contract.py:40-71 | every order of the keys of a payload, at any depth, gives the same contract if and only if no path is flattened to two known types |
| `SchemaContract.ContractDiff` | src/domains/datacatalog/schema_contract.py:89-108 | returns exactly one finding per differing path, of the right kind and types, with paths strictly increasing |
| `SchemaContract.DiffIsPatch` | src/domains/datacatalog/schema_contract.py:89-108 | applying the findings to the declared contract yields the observed one |
| `SchemaContract.DiffIsEmptyIffEqual` | src/domains/datacatalog/schema_contract.py:89-108 | there is no finding if and only if the contracts are equal |
| `SchemaContract.DiffMirrors` | src/domains/datacatalog/schema_contract.py:89-108 | swapping the contracts mirrors the kinds of the findings and keeps their order |
| `SchemaContract.DiffIsUnique` | src/domains/datacatalog/schema_contract.py:89-108 | the contracts determine the list of findings |
| `Upsert.RerunIsStable` | src/domains/datacatalog/pipeline.py:226-289 | for every lawful conflict clause, repeating a run of upserts changes no row |
| `Upsert.ColumnIsFirst` | src/domains/datacatalog/pipeline.py:226-289 | a column that the conflict clause leaves alone holds what was stored, or else what was written first |
| `Upsert.ColumnIsLast` | src/domains/datacatalog/pipeline.py:226-289 | a column that the conflict clause overwrites holds what was written last |
| `Upsert.CheckedRerunIsStable` | src/domains/datacatalog/pipeline.py:226-289 | a run of upserts that broke no primary key goes through again and changes no row |
| `Upsert.PutAllSucceedsIff` | src/domains/datacatalog/pipeline.py:226-289 | a run of upserts goes through if and only if the rows it leaves have distinct primary keys |
| `Upsert.DistinctIffNoClash` | src/domains/datacatalog/pipeline.py:226-289 | the rows left have distinct primary keys if and only if no statement that inserts a row takes the primary key of another inserted or stored row |
| `CatalogBatch.NormalizeItem` | src/domains/datacatalog/pipeline.py:221-289 | the statements for one item write its row, its fields and its evidence, or fail on a broken primary key |
| `CatalogBatch.Catalog.NormalizeAssetSchema` | src/domains/datacatalog/pipeline.py:209-289 | the nested loops store the fold of all items in order, or nothing when a statement fails |
| `CatalogBatch.MergeContracts` | src/domains/datacatalog/pipeline.py:307-312 | the merged contract of an asset is the fold of the contracts of its items |
| `CatalogBatch.CountByAsset` | src/domains/datacatalog/pipeline.py:350-352 | the counts have the assets of the items as keys and their multiplicities as values |
| `CatalogBatch.Catalog.RecordSchemaObservations` | src/domains/datacatalog/pipeline.py:295-335 | adds one row per asset with a version and a new contract hash, and keeps the first observation of a known one |
| `CatalogBatch.Catalog.LoadCatalog` | src/domains/datacatalog/pipeline.py:341-365 | stores the count and load time per date, source and asset, replacing earlier ones |
| `CatalogBatch.Catalog.RecordLineage` | src/domains/datacatalog/pipeline.py:368-392 | adds an edge for every asset of every healthy outcome and changes no edge |
| `CatalogBatch.Catalog.RunBatch` | scripts/catalog_run.py:161-174 | the four stages in one transaction store their combined effect, or nothing when no source is healthy or a statement fails |
| `CatalogBatch.NormalizedTables` | src/domains/datacatalog/pipeline.py:209-289 | interleaving the statements of the three tables has the effect of running each table's statements alone |
| `CatalogBatch.NormalizeIsIdempotent` | src/domains/datacatalog/pipeline.py:209-289 | normalising the same items again, at any ingestion time, changes no row |
| `CatalogBatch.BatchIsIdempotent` | src/domains/datacatalog/pipeline.py:209-392 | from any tables, running the whole batch again, at any clock, commits exactly when the first run did and leaves the rows of the first run, load times aside |
| `CatalogContents.CommitsIff` | scripts/catalog_run.py:161-174 | a batch is committed if and only if some source succeeded or had no data and no primary key breaks |
| `CatalogContents.RowStoredIff` | src/domains/datacatalog/pipeline.py:221-246 | after a batch the rows are the old ones and one per run, asset and row key of an item; the latter are observed now under the identifier they got first |
| `CatalogContents.FieldIsLastShown` | src/domains/datacatalog/pipeline.py:248-266 | the type of a field is the one in the contract of the last item that shows it |
| `CatalogContents.OtherFieldsStay` | src/domains/datacatalog/pipeline.py:248-266 | a field that no item shows is as before |
| `CatalogContents.EvidenceStoredIff` | src/domains/datacatalog/pipeline.py:268-289 | evidence is kept once stored, and otherwise made by the first item with its cluster, source and resource |
| `CatalogContents.MergedIsContractOfAll` | src/domains/datacatalog/pipeline.py:307-312 | the merged contract of an asset is the contract of the fields of all its items |
| `CatalogContents.SchemaStoredIff` | src/domains/datacatalog/pipeline.py:314-335 | a contract is on record if and only if it was before or some outcome shows it for an asset with a version; the run that showed it first stays |
| `CatalogContents.LoadIsLast` | src/domains/datacatalog/pipeline.py:341-365 | the count of a date, source and asset is the number of its items in the last outcome that has some, loaded now |
| `CatalogContents.OtherLoadsStay` | src/domains/datacatalog/pipeline.py:341-365 | every other count and load time is as before |
| `CatalogContents.EdgeStoredIff` | src/domains/datacatalog/pipeline.py:368-392 | an edge is there if and only if it was before or a healthy outcome has an item of the asset |
| `CatalogBatch.NormalizeSucceedsIff` | src/domains/datacatalog/pipeline.py:209-289 | normalising goes through if and only if, among the items that insert a row or evidence, no two take one identifier and none takes a stored one, whatever the clock |
| `CatalogBatch.SharedRowKeyFails` | src/domains/datacatalog/pipeline.py:265-289 | any batch in which one row key of one asset is first seen in two clusters or sources aborts |
| `CatalogRuns.RunTable.UpsertCollectionRuns` | src/domains/datacatalog/pipeline.py:398-428 | records every outcome, or none exactly when two sources would share a run identifier |
| `CatalogRuns.RunTable.OpenDagRun` | src/domains/datacatalog/pipeline.py:466-482 | opens or reopens a day as incomplete and leaves the runs alone |
| `CatalogRuns.RunTable.ResolveDagRunStatus` | src/domains/datacatalog/pipeline.py:431-463 | returns and stores the verdict on the latest outcomes of the day; a day that was never opened is not stored |
| `CatalogRuns.AttemptCountsOutcomes` | src/domains/datacatalog/pipeline.py:398-428 | over any history a source has a run if and only if an outcome was recorded, and `attempt` counts its outcomes |
| `CatalogRuns.RunIsLatest` | src/domains/datacatalog/pipeline.py:398-428 | over any history the run of a source has the status and time of its latest outcome |
| `CatalogRuns.StatusesAreLatest` | src/domains/datacatalog/pipeline.py:440-443 | the stored statuses of a day are exactly those of the latest outcome of each source |
| `CatalogRuns.VerdictIgnoresRetries` | src/domains/datacatalog/pipeline.py:431-463 | histories whose latest outcomes have the same statuses get the same verdict |
| `CatalogRuns.SuccessIff` | src/domains/datacatalog/pipeline.py:431-463 | a day succeeds if and only if downstream is complete, some source was recorded and every source's latest outcome is healthy |
| `CatalogRuns.DayStatusIs` | src/domains/datacatalog/pipeline.py:431-463 | over any history a day failed if no latest outcome of a source is other than failed, else is incomplete until downstream is complete, and then is partial exactly when a latest outcome is truncated or failed |
| `CatalogArchive.Archive.ArchiveRawSnapshot` | src/domains/datacatalog/pipeline.py:156-203 | writes the missing files and snapshot rows of the healthy outcomes with payloads, and returns the outcomes with file and hash attached |
| `CatalogArchive.FilesNeverChange` | src/domains/datacatalog/pipeline.py:171-185 | whatever is archived later, a file keeps its content |
| `CatalogArchive.FileAppears` | src/domains/datacatalog/pipeline.py:171-185 | a file appears if and only if some stage archives its day and source, and then it is not empty |
| `CatalogArchive.RecordedHash` | src/domains/datacatalog/pipeline.py:174-203 | a healthy outcome with payloads gets the file of its day and source, and a row under the hash it came with or else that of its payloads |
| `CatalogArchive.OthersAreNotArchived` | src/domains/datacatalog/pipeline.py:174-176 | truncated, failed and empty outcomes leave files, rows and themselves as they are |
| `CatalogArchive.ReplayIsExact` | src/domains/datacatalog/pipeline.py:76-103 | every later extraction of an archived past date that does not fail returns the archived payloads, whatever the source answers |
| `CatalogArchive.ReplayRestoresIff` | src/domains/datacatalog/pipeline.py:57-103 | extracting a day again as a past day gives the first extraction if and only if both failed, or neither did and the file that was there held what was found, or something was found and so archived, or nothing was found, nothing was archived since and the source still has nothing |
| `CatalogArchive.SameDayRerunIsNotReplayed` | src/domains/datacatalog/pipeline.py:171-185 | a same-day rerun that fetches something new keeps the old file, and the old payloads are replayed later |
| `CatalogArchive.EmptyDayIsNotReplayed` | src/domains/datacatalog/pipeline.py:174-176 | a day on which the source had nothing is not archived, and extracting it later asks the source again |
| `CatalogArchive.RecordedHashMatchesFileIff` | src/domains/datacatalog/pipeline.py:177-184 | the recorded hash is the hash of the archived file if and only if the file is new or has that hash |
| `CatalogArchive.BackfillIsIdempotent` | scripts/catalog_run.py:151-174 | collecting and archiving a day with the script, and later backfilling it, leaves every table as the first run did, load times aside, whenever every source finds the same input again |
| `CatalogDaily.RunIdsDiffer` | src/domains/datacatalog/models.py:65-78 | different days or sources have different run identifiers |
| `CatalogDaily.Warehouse.ExtractTask` | dags/catalog_reconciliation_daily.py:61-77 | one task upserts the run of its source and archives its outcome |
| `CatalogDaily.Warehouse.LoadArchivedOutcomes` | src/domains/datacatalog/pipeline.py:111-150 | returns one outcome per source of the day, sources increasing, with the status of its run and the content of its file |
| `CatalogDaily.HistoryIsLinked` | src/domains/datacatalog/pipeline.py:118-140 | over every history of tasks every snapshot row leads to the file of its own day and source, and every file has a row |
| `CatalogDaily.FileIsFirstFound` | src/domains/datacatalog/pipeline.py:171-185 | over every history the file of a day and source holds what the first task that found something found |
| `CatalogDaily.LoadedIsHistory` | src/domains/datacatalog/pipeline.py:111-150 | over every history the batch reads the status of the last task and the payloads of the first task that found something |
| `CatalogDaily.LoadedIsExtractedIff` | src/domains/datacatalog/pipeline.py:111-117 | the batch reads what the last task extracted if and only if the archive held nothing before, or the same |
| `CatalogDaily.NoDataLoadsOldPayloads` | src/domains/datacatalog/pipeline.py:111-150 | after a second task of the day that finds nothing the batch reads the payloads of the first as `NO_DATA` |
| `CatalogDaily.BackfillLoadsTheSameIff` | dags/catalog_reconciliation_daily.py:61-103 | a backfill task makes the batch read what it read before if and only if it ends with the status of the last task and finds nothing new where nothing was archived |
| `CatalogDaily.DailyBackfillIsIdempotent` | dags/catalog_reconciliation_daily.py:61-109 | when the statuses of a day agree with its archive, backfilling it, between tasks of any other days, and running the batch again leaves every table as the first batch did, load times aside |

## Left out

- YAML lexing, anchors, merge keys and block scalars: the node tree is taken with well-formed spans and unique keys.
- Splice.SpliceDescending: the text is a sequence of characters; marks and encodings of the YAML library are not modelled.
- Manifest.SetIsOverlay: `set_object_value` writes into a copied dictionary in place; it is modelled as a function on values, so aliasing between documents is not captured.
- ActionPolicy.AllowedIsNameSafe: memory quantities are read with ASCII digits only, where the pattern of the source also takes other decimal digits.
- RecoveryMerge.RecoveryDiffMatchesApprovedScope: case folding and the text of a loaded value are parameters.
- DeclaredPatch.MaterializeDeclared: the search for anchors and the identity of a document are given with the source.
- KustomizeClosure.CollectKustomizeSourceContents: the test for remote references and the parsing of references out of a kustomization file are parameters, and the warnings about external references are not modelled.
- SnapshotProtocol.SnapshotIsSafe: cancellation of tasks is not modelled.
- PatchOwnership.UnownedFieldUnchanged: covers JSON Patch lists; strategic-merge patches, target patterns and `semantic_fields_overlap` depend on Kustomize rules that the code does not contain.
- StatusLadder.StatusTable.Update: updates without a status are unguarded in the source and change no status in the model; timestamps and event bodies are not modelled.
- ApprovedSnapshots.PrepareApprovedResourceSnapshots: contents of a snapshot beyond key, completion time and document are not modelled.
- CatalogBatch.Catalog.NormalizeAssetSchema: how identifiers are computed from their parts is a parameter, foreign keys are not modelled, and items are assumed to carry the keys the loop reads.
- CatalogDaily.Warehouse.LoadArchivedOutcomes: archive addresses other than files are not modelled, and which snapshot row of a run the query prefers is left open, since all of them lead to one file.
- CatalogArchive.Archive.ArchiveRawSnapshot: outcomes are updated in place in the source and returned in the model; file sizes and snapshot identifiers are not modelled.
- Quality checks and the SQL of the catalog: queries over tables that add no step to the claims here.
- AlertLedger.MarkedIffInEpisode: the actions that acknowledge and promote an event are assumed; no statement of the repository writes these columns, the upsert only clears them.
- `resolve_workflow_approval` and `attach_workflow_command`: unguarded writes, outside the claims about approvals.
- `materialize_image_patch` and the declared-source adapters: they build inputs of the modelled operations.
- HTTP clients, token storage, rendering subprocesses, routers, migrations and the user interface.
