/**
  Identifiers for what lives in the two hosts, and the calls into them that the plugin
  makes. The hosts' own behaviour is not modelled: the model records, in order, which
  host calls the plugin makes.
 */
module Host {

  /** A Grasshopper object (parameter or component) of a definition. */
  type ObjectId = nat

  /** A Grasshopper definition (`GH_Document`). */
  type DefinitionId = nat

  /** A Revit document (`DB.Document`). */
  type DocumentId = nat

  /** The message `SetStatusBarEvent` shows after a solution, singular or plural. */
  datatype StatusMessage = OneObjectExpired | ObjectsExpired(count: nat)

  datatype HostCall =
    | RaiseFlush                             // `FlushQueue.Raise()`: ask Revit to run the flush handler
    | ExpireSolution(obj: ObjectId)          // `obj.ExpireSolution(false)`
    | NewSolution(definition: DefinitionId)  // `definition.NewSolution(false)`
    | ClearData(obj: ObjectId)               // `obj.ClearData()`
    | ObsoleteRemark(obj: ObjectId)          // the remark added to an expired object
    | StartGroup(document: DocumentId)       // `new TransactionGroup(doc, ...).Start()`
    | Assimilate(document: DocumentId)       // `group.Assimilate()` on a valid group
    | SetStatusBar(message: StatusMessage)   // `DocumentEditor.SetStatusBarEvent`
}
