/**
  What a Revit `DocumentChanged` event turns into: for each Grasshopper definition, the
  list of its objects that hold obsolete Revit elements, queued when non-empty; and what
  flushing and draining that queue does.
 */
module DocumentChanges {

  import opened Host

  /** `GH_ParamData`: where a parameter's data comes from. */
  datatype ParamData = Unset | Local | Remote

  /** The objects of a definition, as far as the change tracking distinguishes them. */
  datatype ActiveObject =
    | ElementIdParam(id: ObjectId, locked: bool, dataType: ParamData)  // `IGH_ElementIdParam`
    | ElementIdComponent(id: ObjectId, locked: bool)                   // `IGH_ElementIdComponent`
    | OtherObject(id: ObjectId)

  /** `GH_ProcessStep`: where a definition is in its solution. */
  datatype ProcessStep = PreProcess | Process | PostProcess

  datatype Definition = Definition(id: DefinitionId, objects: seq<ActiveObject>, solutionState: ProcessStep)

  /** `UndoOperation`: what caused the Revit document to change. */
  datatype UndoOperation =
    | TransactionCommitted | TransactionUndone | TransactionRedone
    | TransactionGroupRolledBack | TransactionRolledBack

  /** `DocumentChangedEventArgs`: the document and the element ids it reports. */
  datatype DocumentChangedArgs = DocumentChangedArgs(
    document: DocumentId,
    operation: UndoOperation,
    added: seq<int>,
    deleted: seq<int>,
    modified: seq<int>)

  /** `DocumentChangedEvent`: one definition's reaction to one Revit change. */
  datatype DocumentChange = DocumentChange(
    operation: UndoOperation,
    document: DocumentId,
    definition: Definition,
    expired: seq<ActiveObject>)

  /**
    Whether the change expires `obj`. `expiring` holds the objects whose
    `NeedsToBeExpired` answers true for this event; locked objects and parameters whose
    data is remote are never asked.
   */
  predicate Expires(obj: ActiveObject, expiring: set<ObjectId>)
  {
    match obj
    case ElementIdParam(id, locked, dataType) => !locked && dataType != Remote && id in expiring
    case ElementIdComponent(id, locked) => !locked && id in expiring
    case OtherObject(_) => false
  }

  /** The objects of a definition the change expires, in the definition's order. */
  function ExpiredObjects(objects: seq<ActiveObject>, expiring: set<ObjectId>): seq<ActiveObject>
  {
    if objects == [] then []
    else (if Expires(objects[0], expiring) then [objects[0]] else []) + ExpiredObjects(objects[1..], expiring)
  }

  /**
    The expired list holds exactly the objects the filter accepts: never a locked object,
    never a parameter with remote data, never an object of another kind.
   */
  lemma {:induction false} ExpiredObjectsIff(objects: seq<ActiveObject>, expiring: set<ObjectId>, obj: ActiveObject)
    ensures obj in ExpiredObjects(objects, expiring) <==> obj in objects && Expires(obj, expiring)
  {
    if objects != [] {
      ExpiredObjectsIff(objects[1..], expiring, obj);
      assert objects == [objects[0]] + objects[1..];
    }
  }

  predicate HasElementChanges(e: DocumentChangedArgs)
  {
    |e.added| > 0 || |e.deleted| > 0 || |e.modified| > 0
  }

  function ChangeFor(e: DocumentChangedArgs, definition: Definition, expiring: set<ObjectId>): DocumentChange
  {
    DocumentChange(e.operation, e.document, definition, ExpiredObjects(definition.objects, expiring))
  }

  /** The changes `OnDocumentChanged` enqueues, in definition order. */
  function PendingChanges(e: DocumentChangedArgs, definitions: seq<Definition>, expiring: set<ObjectId>): seq<DocumentChange>
  {
    if !HasElementChanges(e) || definitions == [] then []
    else
      var change := ChangeFor(e, definitions[0], expiring);
      (if |change.expired| > 0 then [change] else []) + PendingChanges(e, definitions[1..], expiring)
  }

  /**
    A change is enqueued exactly when the event reports some element id and the change
    expires at least one object of its definition.
   */
  lemma {:induction false} PendingChangesIff(e: DocumentChangedArgs, definitions: seq<Definition>, expiring: set<ObjectId>, c: DocumentChange)
    ensures c in PendingChanges(e, definitions, expiring) <==>
      HasElementChanges(e) && |c.expired| > 0 && c.definition in definitions && c == ChangeFor(e, c.definition, expiring)
  {
    if HasElementChanges(e) && definitions != [] {
      PendingChangesIff(e, definitions[1..], expiring, c);
      assert definitions == [definitions[0]] + definitions[1..];
    }
  }

  /** No change in the queue is empty: the debug assertion of `NewSolution`. */
  ghost predicate AllNonEmpty(queue: seq<DocumentChange>)
  {
    forall i :: 0 <= i < |queue| ==> |queue[i].expired| > 0
  }

  lemma PendingChangesNonEmpty(e: DocumentChangedArgs, definitions: seq<Definition>, expiring: set<ObjectId>)
    ensures AllNonEmpty(PendingChanges(e, definitions, expiring))
  {
    var p := PendingChanges(e, definitions, expiring);
    forall i | 0 <= i < |p| ensures |p[i].expired| > 0 {
      PendingChangesIff(e, definitions, expiring, p[i]);
    }
  }

  /** What enqueueing one change calls: the flush is raised unless its definition is in its Process step. */
  function EnqueueCalls(change: DocumentChange): seq<HostCall>
  {
    if change.definition.solutionState != Process then [RaiseFlush] else []
  }

  function EnqueueAllCalls(changes: seq<DocumentChange>): seq<HostCall>
  {
    if changes == [] then [] else EnqueueCalls(changes[0]) + EnqueueAllCalls(changes[1..])
  }

  /** The flush is raised once per queued change made outside a Grasshopper solution, and for no other. */
  lemma {:induction false} RaiseCount(changes: seq<DocumentChange>)
    ensures multiset(EnqueueAllCalls(changes))[RaiseFlush] == |OutsideSolution(changes)|
  {
    if changes != [] {
      RaiseCount(changes[1..]);
    }
  }

  /** The changes whose definition was not in its Process step when queued. */
  function OutsideSolution(changes: seq<DocumentChange>): seq<DocumentChange>
  {
    if changes == [] then []
    else (if changes[0].definition.solutionState != Process then [changes[0]] else []) + OutsideSolution(changes[1..])
  }

  /** What `NewSolution` of one change calls: expire each object, then re-solve after a committed transaction. */
  function NewSolutionCalls(change: DocumentChange): seq<HostCall>
  {
    ExpireCalls(change.expired)
    + (if change.operation == TransactionCommitted then [NewSolution(change.definition.id)] else [])
  }

  function ExpireCalls(objects: seq<ActiveObject>): seq<HostCall>
  {
    if objects == [] then [] else [ExpireSolution(objects[0].id)] + ExpireCalls(objects[1..])
  }

  /** What flushing the queue calls: each change's `NewSolution`, oldest change first. */
  function FlushCalls(queue: seq<DocumentChange>): seq<HostCall>
  {
    if queue == [] then [] else NewSolutionCalls(queue[0]) + FlushCalls(queue[1..])
  }

  /** The number of objects the queued changes expire. */
  function TotalExpired(queue: seq<DocumentChange>): nat
  {
    if queue == [] then 0 else |queue[0].expired| + TotalExpired(queue[1..])
  }

  /** What draining the queue at solution end calls: clear each expired object and remark on it. */
  function DrainCalls(queue: seq<DocumentChange>): seq<HostCall>
  {
    if queue == [] then [] else ClearCalls(queue[0].expired) + DrainCalls(queue[1..])
  }

  function ClearCalls(objects: seq<ActiveObject>): seq<HostCall>
  {
    if objects == [] then [] else [ClearData(objects[0].id), ObsoleteRemark(objects[0].id)] + ClearCalls(objects[1..])
  }

  /** The status message for a count of expired objects: none for zero, the singular form for one. */
  function StatusFor(count: nat): seq<HostCall>
  {
    if count == 0 then []
    else if count == 1 then [SetStatusBar(OneObjectExpired)]
    else [SetStatusBar(ObjectsExpired(count))]
  }

  /** The number of `ClearData` calls the drain makes. */
  function ClearedCount(calls: seq<HostCall>): nat
  {
    if calls == [] then 0 else (if calls[0].ClearData? then 1 else 0) + ClearedCount(calls[1..])
  }

  lemma {:induction false} ClearedCountAppend(a: seq<HostCall>, b: seq<HostCall>)
    ensures ClearedCount(a + b) == ClearedCount(a) + ClearedCount(b)
  {
    if a == [] {
      assert a + b == b;
    } else {
      assert (a + b)[1..] == a[1..] + b;
      ClearedCountAppend(a[1..], b);
    }
  }

  lemma {:induction false} ClearCallsCount(objects: seq<ActiveObject>)
    ensures ClearedCount(ClearCalls(objects)) == |objects|
  {
    if objects != [] {
      var head := [ClearData(objects[0].id), ObsoleteRemark(objects[0].id)];
      ClearCallsCount(objects[1..]);
      ClearedCountAppend(head, ClearCalls(objects[1..]));
      assert head[1..][1..] == [];
    }
  }

  /** The count reported at solution end is the number of objects the drain clears. */
  lemma {:induction false} TotalExpiredIsCleared(queue: seq<DocumentChange>)
    ensures ClearedCount(DrainCalls(queue)) == TotalExpired(queue)
  {
    if queue != [] {
      TotalExpiredIsCleared(queue[1..]);
      ClearCallsCount(queue[0].expired);
      ClearedCountAppend(ClearCalls(queue[0].expired), DrainCalls(queue[1..]));
    }
  }

  /** The expired count adds up over a split queue. */
  lemma {:induction false} TotalExpiredAppend(a: seq<DocumentChange>, b: seq<DocumentChange>)
    ensures TotalExpired(a + b) == TotalExpired(a) + TotalExpired(b)
  {
    if a == [] {
      assert a + b == b;
    } else {
      assert (a + b)[1..] == a[1..] + b;
      TotalExpiredAppend(a[1..], b);
    }
  }

  /** With no empty change queued, every queued change adds at least one to the count. */
  lemma {:induction false} TotalExpiredAtLeastLength(queue: seq<DocumentChange>)
    requires AllNonEmpty(queue)
    ensures TotalExpired(queue) >= |queue|
  {
    if queue != [] {
      TotalExpiredAtLeastLength(queue[1..]);
    }
  }

  /**
    At solution end a status message is shown exactly when the queue held a change, and
    the singular message exactly when it held one change expiring one object.
   */
  lemma StatusForQueue(queue: seq<DocumentChange>)
    requires AllNonEmpty(queue)
    ensures StatusFor(TotalExpired(queue)) == [] <==> queue == []
    ensures StatusFor(TotalExpired(queue)) == [SetStatusBar(OneObjectExpired)] <==> |queue| == 1 && |queue[0].expired| == 1
  {
    TotalExpiredAtLeastLength(queue);
    if |queue| >= 2 {
      TotalExpiredAtLeastLength(queue[1..]);
    }
  }
}
