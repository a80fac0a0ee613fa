# Rhino.Inside.Revit guest bookkeeping and physical-asset components, in Dafny

This project models two parts of Rhino.Inside.Revit, the plug-in that runs Rhino and
Grasshopper inside Autodesk Revit.

**The Grasshopper guest** (`src/RhinoInside.Revit/GH/Guest.cs`):

- *Plug-in assembly discovery.*
  - `EnumGHLink` reads a `.ghlink` file line by line. It trims each line and skips blank, `#` and `//` lines. It collects a named file, or the `.gha` files of a named folder. It returns false when anything throws.
  - `GetAssembliesList` merges the default library folders into an insertion-ordered dictionary keyed by the path relative to the folder. A path seen again is removed and re-added, so the later folder wins and the key moves to the end.
  - It then lists the dictionary's values, expanding each `.ghlink` file in place.
  - Only files whose lower-cased extension is exactly `.gha` are taken, never `.ghax`.
- *Synchronisation with Revit.*
  - `OnDocumentChanged` builds, per Grasshopper definition, the list of unlocked objects that hold obsolete Revit elements, and queues it when it is non-empty.
  - Queueing requests a flush unless the definition is in the middle of solving. A flush replays the queue in FIFO order.
  - Around each solution, one transaction group is started per document that can take one. The groups are committed (popped) at solution end, when the queue is also drained and the expired objects are counted for the status bar.
  - Document-added events, gate entry and exit, and Rhino document opening switch solutions and the canvas definition off and on again.

**The physical-asset components**
(`src/RhinoInside.Revit.GH/Components/Element/Material/PhyscialMaterialAssetComponents.cs`):

- Each asset property is a record: a name, an optional Grasshopper parameter, the built-in Revit parameters that store it, and an optional value range.
- The components build their input and output lists from these records.
- They mark exactly the properties whose inputs received data, clamping numbers into their range.
- They write marked properties, except the name, to every built-in parameter.
- They read each output from the first built-in parameter the element has.
- A Create component refuses a name taken by a property set of another asset type.

How the model is built:

- *The hosts are inputs, not code.* The filesystem is a snapshot (`Assemblies.FileSystem`). `NeedsToBeExpired` is a given set of object ids. `IsValidObject` of a transaction group is a given set of closed documents. The element a Create finds by name, and the element Revit creates, are parameters.
- *Host calls are logged.* The calls the guest makes into Revit and Grasshopper are appended, in order, to a log (`Host.HostCall`); the components' `SetParameterValue` calls are logged in `PropertySetElement.writes`.
- *Modules.*
  - `Text`: trimming, ordinal prefix test, ASCII lower-casing, `Path.GetExtension`.
  - `OrderedMap`: the `OrderedDictionary` and its remove-then-add update.
  - `Assemblies`: the `.ghlink` reader and the folder merge.
  - `Host`, `DocumentChanges`, `GuestState`: the change queue, the transaction-group and active-definition stacks, and the deferred enabling of solutions.
  - `PhysicalAssets`, `AssetComponents`: the asset components.
- *Style.* Code the source writes with loops and in-place updates is a method or a class. Each such method is proved equal to a specification function, and the lemmas state the properties of those functions.

## Model

| member | source | states |
|---|---|---|
| Text.TrimSpec | src/RhinoInside.Revit/GH/Guest.cs:276 | `Trim` keeps a slice of the line; everything dropped is white space and the result neither starts nor ends with white space |
| Text.TrimIdempotent | src/RhinoInside.Revit/GH/Guest.cs:276 | trimming an already trimmed line changes nothing |
| Text.LowerChar | src/RhinoInside.Revit/GH/Guest.cs:296 | upper-case ASCII letters become lower-case letters, all other characters are unchanged |
| Text.DotBeforeSpec | src/RhinoInside.Revit/GH/Guest.cs:296 | the extension starts at a dot with no dot or separator after it |
| Text.GhaExtensionIff | src/RhinoInside.Revit/GH/Guest.cs:292-296 | a file passes the extension test exactly when its name ends in ".gha" in any letter case |
| Text.GhaxIsRejected | src/RhinoInside.Revit/GH/Guest.cs:292-296 | "plugin.ghax", which the `*.gha` pattern enumerates, is rejected; an upper-case ".GHA" is accepted |
| OrderedMap.RemoveKey | src/RhinoInside.Revit/GH/Guest.cs:336-337 | removing a key keeps exactly the entries with other keys |
| OrderedMap.UpsertDistinct | src/RhinoInside.Revit/GH/Guest.cs:336-339 | remove-then-add keeps keys unique and puts the upserted entry last |
| OrderedMap.MergeAllDistinct | src/RhinoInside.Revit/GH/Guest.cs:319-353 | upserting any sequence of entries keeps the keys unique |
| OrderedMap.MergeAllAppend | src/RhinoInside.Revit/GH/Guest.cs:321-353 | merging two batches one after the other is merging their concatenation |
| OrderedMap.MergeAllLookup | src/RhinoInside.Revit/GH/Guest.cs:336-352 | after a merge, a key holds the value of its last occurrence in the batch, or its old value if the batch lacks it |
| OrderedMap.MergeAllLayout | src/RhinoInside.Revit/GH/Guest.cs:336-352 | after a merge, the untouched old entries come first in their order, followed by the merged batch |
| OrderedMap.RemoveKeyAbsent | src/RhinoInside.Revit/GH/Guest.cs:336-337 | removing a key that is absent changes nothing, which makes the `Contains` test harmless |
| OrderedMap.OrderedDictionary.Contains | src/RhinoInside.Revit/GH/Guest.cs:336 | `Contains` is true exactly when some entry of the dictionary has the key |
| OrderedMap.OrderedDictionary.Remove | src/RhinoInside.Revit/GH/Guest.cs:337 | the entry of the key is removed, the others keep their order |
| OrderedMap.OrderedDictionary.Add | src/RhinoInside.Revit/GH/Guest.cs:339 | a new key is appended at the end |
| Assemblies.GhaOnlyMember | src/RhinoInside.Revit/GH/Guest.cs:290-298 | a file is collected exactly when it was enumerated and has the ".gha" extension |
| Assemblies.GhaOnlyAppend | src/RhinoInside.Revit/GH/Guest.cs:290-298 | the extension filter keeps enumeration order |
| Assemblies.TrimmedEntries | src/RhinoInside.Revit/GH/Guest.cs:276-279 | the kept lines are trimmed and neither blank nor comments |
| Assemblies.LinesScanEntriesOnly | src/RhinoInside.Revit/GH/Guest.cs:274-279 | a link file reads exactly like its trimmed, non-blank, non-comment lines |
| Assemblies.LinesScanSources | src/RhinoInside.Revit/GH/Guest.cs:281-299 | each collected path is an existing file named on an entry line, or a ".gha" file of a folder named on one |
| Assemblies.LinesScanOk | src/RhinoInside.Revit/GH/Guest.cs:272-305 | the read completes exactly when no line throws |
| Assemblies.LinesScanInOrder | src/RhinoInside.Revit/GH/Guest.cs:272-305 | in a completed read, each line's files are appended in line order, between those of the lines before and after it |
| Assemblies.LinesScanAppend | src/RhinoInside.Revit/GH/Guest.cs:272-305 | reading two runs of lines is reading the first, then the second only if the first completed |
| Assemblies.LinesScanStopsAtFailure | src/RhinoInside.Revit/GH/Guest.cs:272-305 | the first line that throws ends the read with false, keeping what the earlier lines appended |
| Assemblies.AppendGhaFiles | src/RhinoInside.Revit/GH/Guest.cs:290-299 | the enumerated files with the ".gha" extension are appended in order |
| Assemblies.ScanLine | src/RhinoInside.Revit/GH/Guest.cs:276-300 | one line appends what the line specification says, and fails only when enumerating its folder throws |
| Assemblies.EnumGHLink | src/RhinoInside.Revit/GH/Guest.cs:270-306 | returns false exactly when reading throws; the caller's list grows by what was read up to that point |
| Assemblies.Keyed | src/RhinoInside.Revit/GH/Guest.cs:335 | each file is keyed by its path relative to the folder |
| Assemblies.MapFromMergesAll | src/RhinoInside.Revit/GH/Guest.cs:321-354 | when no enumeration throws, the dictionary is the merge of every folder's entries in order |
| Assemblies.AssemblyMap | src/RhinoInside.Revit/GH/Guest.cs:319-354 | relative paths are unique; each holds the file found last; the entry upserted last is at the end |
| Assemblies.ExpandAppend | src/RhinoInside.Revit/GH/Guest.cs:356-362 | each value's expansion sits where the value was |
| Assemblies.UpsertEntry | src/RhinoInside.Revit/GH/Guest.cs:336-339 | `Contains`/`Remove`/`Add` performs the upsert |
| Assemblies.MergeGhaFile | src/RhinoInside.Revit/GH/Guest.cs:333-339 | a file is upserted under its relative path only when its extension is exactly ".gha" |
| Assemblies.MergeGhaFiles | src/RhinoInside.Revit/GH/Guest.cs:327-340 | the `.gha` loop merges the folder's real ".gha" files in enumeration order |
| Assemblies.MergeLinkFiles | src/RhinoInside.Revit/GH/Guest.cs:346-353 | the `.ghlink` loop merges the folder's link files in enumeration order |
| Assemblies.MergeFolder | src/RhinoInside.Revit/GH/Guest.cs:323-353 | a missing folder adds nothing; a failing enumeration aborts; otherwise ".gha" files, then link files, are merged |
| Assemblies.ExpandValues | src/RhinoInside.Revit/GH/Guest.cs:356-362 | the list is the values in order, ".gha" files as themselves and link files expanded in place |
| Assemblies.GetAssembliesList | src/RhinoInside.Revit/GH/Guest.cs:308-365 | the result is the expansion of the merged dictionary, or nothing when an enumeration throws |
| DocumentChanges.ExpiredObjectsIff | src/RhinoInside.Revit/GH/Guest.cs:503-524 | an object is in a change exactly when it is an unlocked element-id parameter without remote data, or an unlocked element-id component, and it needs to expire |
| DocumentChanges.PendingChangesIff | src/RhinoInside.Revit/GH/Guest.cs:492-528 | a change is queued exactly when the event reports an element id and the change expires an object |
| DocumentChanges.PendingChangesNonEmpty | src/RhinoInside.Revit/GH/Guest.cs:526-527 | no queued change is empty |
| DocumentChanges.RaiseCount | src/RhinoInside.Revit/GH/Guest.cs:546-554 | one flush is raised per queued change whose definition is not in the Process step |
| DocumentChanges.ClearCallsCount | src/RhinoInside.Revit/GH/Guest.cs:647-651 | one `ClearData` per expired object |
| DocumentChanges.TotalExpiredIsCleared | src/RhinoInside.Revit/GH/Guest.cs:641-653 | the count reported equals the number of objects cleared while draining |
| DocumentChanges.TotalExpiredAppend | src/RhinoInside.Revit/GH/Guest.cs:641-646 | the count is a sum over the queued changes |
| DocumentChanges.TotalExpiredAtLeastLength | src/RhinoInside.Revit/GH/Guest.cs:641-646 | with no empty change queued, the count is at least the number of changes |
| DocumentChanges.StatusForQueue | src/RhinoInside.Revit/GH/Guest.cs:654-666 | a status message appears exactly when the queue held a change, the singular one exactly for one change with one object |
| GuestState.GroupDocumentsSpec | src/RhinoInside.Revit/GH/Guest.cs:586-606 | a group is started for a document exactly when it is not linked, not read-only and not modifiable, one per such document |
| GuestState.CommitAllOpen | src/RhinoInside.Revit/GH/Guest.cs:611-625 | with every document open, the groups are assimilated in the reverse of the order they were started |
| GuestState.Guest.Enqueue | src/RhinoInside.Revit/GH/Guest.cs:546-555 | the change joins the back of the queue; a flush is raised unless the definition is in the Process step |
| GuestState.Guest.CollectExpired | src/RhinoInside.Revit/GH/Guest.cs:503-524 | the object loop collects exactly the expiring objects, in order |
| GuestState.Guest.OnDocumentChanged | src/RhinoInside.Revit/GH/Guest.cs:485-530 | the queue grows by exactly the pending changes, and one flush request is logged per change made outside a solution |
| GuestState.Guest.EnqueueAll | src/RhinoInside.Revit/GH/Guest.cs:494-528 | the definition loop queues the pending changes in definition order |
| GuestState.Guest.EnqueueExpired | src/RhinoInside.Revit/GH/Guest.cs:496-527 | a definition's change is queued exactly when it expires something |
| GuestState.Guest.FlushQueue | src/RhinoInside.Revit/GH/Guest.cs:538-542 | the queue is emptied front to back, each change expiring its objects |
| GuestState.Guest.NewSolution | src/RhinoInside.Revit/GH/Guest.cs:562-571 | every object is expired; the definition is re-solved only after a committed transaction |
| GuestState.Guest.StartTransactionGroups | src/RhinoInside.Revit/GH/Guest.cs:579-608 | one started group per eligible document is pushed, in document order |
| GuestState.Guest.CommitTransactionGroups | src/RhinoInside.Revit/GH/Guest.cs:611-625 | the stack ends empty; groups are popped top first and assimilated unless their document closed |
| GuestState.Guest.SolutionStart | src/RhinoInside.Revit/GH/Guest.cs:628-632 | the definition is pushed and the groups are started |
| GuestState.Guest.SolutionEnd | src/RhinoInside.Revit/GH/Guest.cs:634-668 | groups committed, definition popped, queue empty, every expired object cleared, status set from the total count |
| GuestState.Guest.DrainQueue | src/RhinoInside.Revit/GH/Guest.cs:641-652 | the queue ends empty, the returned count is the total number of expired objects, and the drain's calls are every change's clears in queue order |
| GuestState.Guest.ClearExpired | src/RhinoInside.Revit/GH/Guest.cs:647-651 | each expired object is cleared and given the remark |
| GuestState.Guest.SolutionCycle | src/RhinoInside.Revit/GH/Guest.cs:628-637 | a composition of `SolutionStart` then `SolutionEnd`, not a member of the source: around a solution the active-definition stack returns to what it was and every started group is assimilated |
| GuestState.Guest.ActivationGateEnter | src/RhinoInside.Revit/GH/Guest.cs:187-197 | the canvas definition is enabled; a saved `EnableSolutions` is restored and cleared |
| GuestState.Guest.ActivationGateExit | src/RhinoInside.Revit/GH/Guest.cs:199-203 | the canvas definition is disabled |
| GuestState.Guest.DocumentAdded | src/RhinoInside.Revit/GH/Guest.cs:206-216 | with the gate closed and solutions on, solutions go off and true is saved; otherwise nothing changes |
| GuestState.Guest.BeginOpenDocument | src/RhinoInside.Revit/GH/Guest.cs:219-226 | the canvas definition's `Enabled` is remembered, then turned off |
| GuestState.Guest.EndOpenDocumentInitialViewUpdate | src/RhinoInside.Revit/GH/Guest.cs:228-235 | the remembered `Enabled` is restored and the definition re-solved |
| GuestState.Guest.DeferredEnable | src/RhinoInside.Revit/GH/Guest.cs:192-216 | a composition of `DocumentAdded` then `ActivationGateEnter`, not a member of the source: solutions turned off by a document added behind the closed gate are back on after the next gate entry |
| PhysicalAssets.VerifyInputValue | src/RhinoInside.Revit.GH/Components/Element/Material/PhyscialMaterialAssetComponents.cs:185-218 | numbers end in [Min, Max]; a warning is given exactly when the value changed; other values and in-range numbers pass unchanged |
| PhysicalAssets.VerifyInputValueIdempotent | src/RhinoInside.Revit.GH/Components/Element/Material/PhyscialMaterialAssetComponents.cs:185-218 | a checked value passes a second check unchanged and without warning |
| PhysicalAssets.ExclusivesPresent | src/RhinoInside.Revit.GH/Components/Element/Material/PhyscialMaterialAssetComponents.cs:98-102 | true exactly when every exclusive built-in parameter of the property exists |
| PhysicalAssets.MatchesPhysicalAssetType | src/RhinoInside.Revit.GH/Components/Element/Material/PhyscialMaterialAssetComponents.cs:95-104 | true exactly when every exclusive built-in parameter of every property exists on the element |
| PhysicalAssets.NoExclusivesMatchAll | src/RhinoInside.Revit.GH/Components/Element/Material/PhyscialMaterialAssetComponents.cs:95-104 | a type without exclusive parameters matches any element |
| PhysicalAssets.MatchesMonotone | src/RhinoInside.Revit.GH/Components/Element/Material/PhyscialMaterialAssetComponents.cs:95-104 | an element with more parameters still matches |
| PhysicalAssets.InputDefinitionsAppend | src/RhinoInside.Revit.GH/Components/Element/Material/PhyscialMaterialAssetComponents.cs:35-59 | definitions follow property order |
| PhysicalAssets.InputDefinitionsIff | src/RhinoInside.Revit.GH/Components/Element/Material/PhyscialMaterialAssetComponents.cs:39-56 | a definition is produced exactly for properties with a parameter, modifiable when unchangeable ones are skipped |
| PhysicalAssets.OutputDefinitionsIff | src/RhinoInside.Revit.GH/Components/Element/Material/PhyscialMaterialAssetComponents.cs:61-81 | an output is defined exactly for each property with a parameter, and never optional |
| PhysicalAssets.OutputsMirrorInputs | src/RhinoInside.Revit.GH/Components/Element/Material/PhyscialMaterialAssetComponents.cs:61-81 | the outputs match the unfiltered inputs one for one, in order and by name |
| PhysicalAssets.SkipUnchangableShrinks | src/RhinoInside.Revit.GH/Components/Element/Material/PhyscialMaterialAssetComponents.cs:45-46 | skipping unchangeable properties only removes definitions |
| PhysicalAssets.ModifyDefinitionsIff | src/RhinoInside.Revit.GH/Components/Element/Material/PhyscialMaterialAssetComponents.cs:361-363 | the Modify filter keeps exactly the definitions not named "Name" or "Type" |
| PhysicalAssets.AssignedValues | src/RhinoInside.Revit.GH/Components/Element/Material/PhyscialMaterialAssetComponents.cs:132-133 | a value is set for exactly the marked properties |
| PhysicalAssets.MarkedNamesIff | src/RhinoInside.Revit.GH/Components/Element/Material/PhyscialMaterialAssetComponents.cs:112-134 | a property is marked exactly when it has a parameter, the component has that input, and the input received data |
| PhysicalAssets.AssignedValueOf | src/RhinoInside.Revit.GH/Components/Element/Material/PhyscialMaterialAssetComponents.cs:123-133 | a supplied property holds its input, clamped when it has a range |
| PhysicalAssets.FirstPresent | src/RhinoInside.Revit.GH/Components/Element/Material/PhyscialMaterialAssetComponents.cs:153-160 | the value read is that of the first built-in parameter, in order, that the element has; none when it has none |
| PhysicalAssets.PropertyWritesIff | src/RhinoInside.Revit.GH/Components/Element/Material/PhyscialMaterialAssetComponents.cs:177-179 | a property's value is written to each of its built-in parameters, and nowhere else |
| PhysicalAssets.UpdateWritesIff | src/RhinoInside.Revit.GH/Components/Element/Material/PhyscialMaterialAssetComponents.cs:166-181 | a write happens exactly for a built-in parameter of a marked property other than "Name", with that property's value |
| PhysicalAssets.ApplyWritesSpec | src/RhinoInside.Revit.GH/Components/Element/Material/PhyscialMaterialAssetComponents.cs:179 | writes add no parameter, and each parameter ends with its last write |
| PhysicalAssets.ApplyWritesAppend | src/RhinoInside.Revit.GH/Components/Element/Material/PhyscialMaterialAssetComponents.cs:177-179 | two batches of writes are applied one after the other |
| PhysicalAssets.LastWriteAppend | src/RhinoInside.Revit.GH/Components/Element/Material/PhyscialMaterialAssetComponents.cs:177-179 | the last write of two batches is the second batch's, if it has one |
| PhysicalAssets.PropertyLastWrite | src/RhinoInside.Revit.GH/Components/Element/Material/PhyscialMaterialAssetComponents.cs:177-179 | each built-in parameter of a property last receives the property's value |
| PhysicalAssets.UpdateLastWrite | src/RhinoInside.Revit.GH/Components/Element/Material/PhyscialMaterialAssetComponents.cs:166-181 | a parameter mapped by a single written property last receives that property's value |
| PhysicalAssets.ReadBackAfterUpdate | src/RhinoInside.Revit.GH/Components/Element/Material/PhyscialMaterialAssetComponents.cs:164-182 | after an update, a written property not sharing parameters reads back the value written |
| AssetComponents.PropertySetElement.SetParameterValue | src/RhinoInside.Revit.GH/Components/Element/Material/PhyscialMaterialAssetComponents.cs:179 | the write is logged and stored into the parameter if the element has it |
| AssetComponents.AssetData.SetAndMark | src/RhinoInside.Revit.GH/Components/Element/Material/PhyscialMaterialAssetComponents.cs:132-133 | the value is set and the property marked |
| AssetComponents.GetAssetDataAsInputs | src/RhinoInside.Revit.GH/Components/Element/Material/PhyscialMaterialAssetComponents.cs:35-59 | the loop builds the input definitions |
| AssetComponents.GetAssetDataAsOutputs | src/RhinoInside.Revit.GH/Components/Element/Material/PhyscialMaterialAssetComponents.cs:61-81 | one non-optional output per property with a parameter, in order |
| AssetComponents.CreateInputs | src/RhinoInside.Revit.GH/Components/Element/Material/PhyscialMaterialAssetComponents.cs:247-267 | the optional document input comes first, then every property with a parameter |
| AssetComponents.ModifyInputs | src/RhinoInside.Revit.GH/Components/Element/Material/PhyscialMaterialAssetComponents.cs:349-366 | the asset input comes first, then the modifiable properties except "Name" and "Type" |
| AssetComponents.CheckPhysicalAssetType | src/RhinoInside.Revit.GH/Components/Element/Material/PhyscialMaterialAssetComponents.cs:95-104 | the early-return loops compute the type match |
| AssetComponents.AssignInput | src/RhinoInside.Revit.GH/Components/Element/Material/PhyscialMaterialAssetComponents.cs:114-134 | a supplied property is set to its checked input and marked; any other is left alone |
| AssetComponents.CreateAssetDataFromInputs | src/RhinoInside.Revit.GH/Components/Element/Material/PhyscialMaterialAssetComponents.cs:106-138 | the new data marks the supplied properties and holds their checked inputs; the warnings are the range checks' |
| AssetComponents.WriteProperty | src/RhinoInside.Revit.GH/Components/Element/Material/PhyscialMaterialAssetComponents.cs:177-179 | the value goes to each built-in parameter in order |
| AssetComponents.UpdatePropertySetElementFromData | src/RhinoInside.Revit.GH/Components/Element/Material/PhyscialMaterialAssetComponents.cs:164-182 | exactly the update writes are made and applied to the element |
| AssetComponents.FirstParameter | src/RhinoInside.Revit.GH/Components/Element/Material/PhyscialMaterialAssetComponents.cs:153-160 | the loop with `break` returns the first present parameter's value |
| AssetComponents.SetOutputsFromPropertySetElement | src/RhinoInside.Revit.GH/Components/Element/Material/PhyscialMaterialAssetComponents.cs:140-162 | nothing for a missing element; otherwise one output per property with a parameter and a present built-in |
| AssetComponents.TrySolveCreate | src/RhinoInside.Revit.GH/Components/Element/Material/PhyscialMaterialAssetComponents.cs:269-321 | a name held by another asset type is an error with no transaction, delete or create; otherwise start, delete the same-named element, create a property set of the component's asset kind from the name and the "Type" value (`StructuralAssetClass` or `ThermalMaterialType`), and write the inputs |
| AssetComponents.TrySolveModify | src/RhinoInside.Revit.GH/Components/Element/Material/PhyscialMaterialAssetComponents.cs:368-383 | with an asset, start a transaction and write the supplied inputs into it in place; without one, nothing |
| AssetComponents.TrySolveAnalyze | src/RhinoInside.Revit.GH/Components/Element/Material/PhyscialMaterialAssetComponents.cs:412-419 | outputs are read from the given asset, none without one |
| AssetComponents.ReadOutputsHas | src/RhinoInside.Revit.GH/Components/Element/Material/PhyscialMaterialAssetComponents.cs:145-161 | each property with a parameter and a present built-in produces an output |
| AssetComponents.ReadOutputsIff | src/RhinoInside.Revit.GH/Components/Element/Material/PhyscialMaterialAssetComponents.cs:145-161 | an output is set exactly for a property with a parameter whose built-in parameters the element has, holding the first one present; otherwise the output is left unset |
| AssetComponents.ModifyThenAnalyze | src/RhinoInside.Revit.GH/Components/Element/Material/PhyscialMaterialAssetComponents.cs:164-182 | a supplied property, other than "Name", that shares no parameter reads back as its clamped input |

## Left out

- Plug-in lifecycle: event subscription in `OnCheckIn`/`OnCheckOut`, the canvas lambdas, the preview server, editor control and the asynchronous `ActivationGate.Yield` methods are host plumbing.
- `LoadGHA`, the load-failure dialog and the `Assemblies:COFF` settings in `LoadStartupAssemblies` rely on reflection and UI.
- The default folder paths are computed from environment folders; they are a parameter (`folders`) here.
- The filesystem is a fixed snapshot. The model does not capture concurrent changes or lazy enumeration: an enumeration either yields all its names or fails before yielding any.
- Only two failures are modelled: reading a link file the snapshot has no contents for, and an enumeration that fails with something other than a missing folder. Nothing else in `EnumGHLink` or `GetAssembliesList` throws in the model.
- Text.IsWhiteSpace: approximates `Char.IsWhiteSpace` by a fixed set of characters.
- Text.LowerChar: lower-cases ASCII letters only, not the culture-sensitive `String.ToLower`.
- Text.StartsWith: an ordinal prefix test. The one-argument `String.StartsWith` called at Guest.cs:278-279 compares under the current culture, which ignores characters such as U+00AD (soft hyphen). So a line such as "\u00AD# note" is a comment to the source but an entry to `IsLinkEntry`.
- Revit and Grasshopper effects are logged as calls and not executed: starting and assimilating groups, expiring and clearing objects, `NewSolution`, status-bar messages, `doc.Delete` and `PropertySetElement.Create`.
- A group's `IsValidObject` is a given set of closed documents. An exception from `Assimilate` is swallowed by the source and has no further effect in the model.
- `NeedsToBeExpired` is a given set of object ids per event.
- GuestState.Guest.FlushQueue: assumes nothing else drains the queue while it is flushed. In the source, a committed change's `Definition.NewSolution(false)` can run a solution synchronously inside the flush loop. That solution's `SolutionEnd` drains the same static queue. The changes still queued behind it then get `ClearData` and the remark instead of `ExpireSolution`/`NewSolution`, and the flush loop ends early. The model's call log does not capture that order.
- GuestState.Guest.SolutionEnd: does not model the `ModelUnitSystem` update (unit auditing), or the message text beyond the singular/plural choice. It requires a non-empty document stack, so the exception `ActiveDocuments.Pop()` would throw on an empty one is not modelled; the host fires solution start and end in pairs, so that case does not arise.
- Group names (`DateTime.Now`, `TripleDot`) are left out as cosmetic.
- PropertySetElement.SetParameterValue: this extension method is not part of this model. The model assumes it stores the value into a parameter the element has and does nothing otherwise.
- Reflection over `PhysicalMaterialData` attributes and `Activator.CreateInstance` of parameter types: properties are a given sequence of records, with names unique where a lemma needs it (`DistinctNames`).
- `FindPropertySetElement` (a filtered element collector) is a parameter: the element found by name, or null.
- PhysicalAssets.VerifyInputValue: values are reals, so IEEE doubles, NaN (which passes unchanged in the source) and the runtime message text are not modelled.
- AssetComponents.TrySolveCreate: the structural and thermal components are one method over `AssetKind`. The "Type" value is an integer (`AssetClass`) standing for the enum value, and the model does not check that it names a member of the enum. The thermal component reads its "Behaviour" input but never applies it, and the model records no behaviour for it. The error's wording (both say "Thermal asset") is not modelled.
- `src/RhinoInside.Revit.GH/Components/ElementType/Duplicate.cs` is a short sequence of Revit calls with host-defined effects and is not part of this model.
