/**
  The Grasshopper guest's bookkeeping around Revit: the queue of document changes, the
  stack of transaction groups opened for a solution, the stack of active definitions, and
  the deferred re-enabling of solutions while the activation gate is closed.
 */
module GuestState {

  import opened Wrappers
  import opened Host
  import opened DocumentChanges

  /** A Revit document as `StartTransactionGroups` inspects it. */
  datatype RevitDocument = RevitDocument(id: DocumentId, isLinked: bool, isReadOnly: bool, isModifiable: bool)

  /**
    A document gets a transaction group unless it is linked (no transactions allowed),
    read-only (being recovered) or already modifiable (a transaction is under way).
   */
  predicate NeedsGroup(doc: RevitDocument)
  {
    !doc.isLinked && !doc.isReadOnly && !doc.isModifiable
  }

  /** The documents that get a group, in enumeration order. */
  function GroupDocuments(documents: seq<RevitDocument>): seq<DocumentId>
  {
    if documents == [] then []
    else (if NeedsGroup(documents[0]) then [documents[0].id] else []) + GroupDocuments(documents[1..])
  }

  function CountNeedingGroup(documents: seq<RevitDocument>): nat
  {
    if documents == [] then 0 else (if NeedsGroup(documents[0]) then 1 else 0) + CountNeedingGroup(documents[1..])
  }

  /**
    One group per eligible document: a document id is pushed exactly when some document
    with that id is eligible, and as many ids are pushed as there are eligible documents.
   */
  lemma {:induction false} GroupDocumentsSpec(documents: seq<RevitDocument>, d: DocumentId)
    ensures d in GroupDocuments(documents) <==> exists i :: 0 <= i < |documents| && documents[i].id == d && NeedsGroup(documents[i])
    ensures |GroupDocuments(documents)| == CountNeedingGroup(documents)
  {
    if documents != [] {
      GroupDocumentsSpec(documents[1..], d);
      if exists i :: 0 <= i < |documents[1..]| && documents[1..][i].id == d && NeedsGroup(documents[1..][i]) {
        var i :| 0 <= i < |documents[1..]| && documents[1..][i].id == d && NeedsGroup(documents[1..][i]);
        assert documents[i + 1] == documents[1..][i];
      }
      if exists i :: 0 <= i < |documents| && documents[i].id == d && NeedsGroup(documents[i]) {
        var i :| 0 <= i < |documents| && documents[i].id == d && NeedsGroup(documents[i]);
        if i > 0 {
          assert documents[1..][i - 1] == documents[i];
        }
      }
    }
  }

  function StartCalls(groups: seq<DocumentId>): seq<HostCall>
  {
    if groups == [] then [] else [StartGroup(groups[0])] + StartCalls(groups[1..])
  }

  /**
    What committing a stack of groups calls, top of the stack (the end of the sequence)
    first; the group of a closed document is no longer a valid object and is not assimilated.
   */
  function CommitCalls(groups: seq<DocumentId>, closed: set<DocumentId>): seq<HostCall>
  {
    if groups == [] then []
    else
      var top := groups[|groups| - 1];
      (if top in closed then [] else [Assimilate(top)]) + CommitCalls(groups[..|groups| - 1], closed)
  }

  function Reverse(s: seq<DocumentId>): seq<DocumentId>
  {
    if s == [] then [] else Reverse(s[1..]) + [s[0]]
  }

  function AssimilateCalls(groups: seq<DocumentId>): seq<HostCall>
  {
    if groups == [] then [] else [Assimilate(groups[0])] + AssimilateCalls(groups[1..])
  }

  lemma {:induction false} AssimilateCallsAppend(a: seq<DocumentId>, b: seq<DocumentId>)
    ensures AssimilateCalls(a + b) == AssimilateCalls(a) + AssimilateCalls(b)
  {
    if a == [] {
      assert a + b == b;
    } else {
      assert (a + b)[1..] == a[1..] + b;
      AssimilateCallsAppend(a[1..], b);
    }
  }

  lemma {:induction false} ReverseSnoc(s: seq<DocumentId>, x: DocumentId)
    ensures Reverse(s + [x]) == [x] + Reverse(s)
  {
    if s == [] {
      assert s + [x] == [x];
    } else {
      assert (s + [x])[1..] == s[1..] + [x];
      ReverseSnoc(s[1..], x);
    }
  }

  /**
    With every document still open, committing assimilates every group, in the reverse of
    the order the groups were started.
   */
  lemma {:induction false} CommitAllOpen(groups: seq<DocumentId>)
    ensures CommitCalls(groups, {}) == AssimilateCalls(Reverse(groups))
  {
    if groups != [] {
      var init := groups[..|groups| - 1];
      var top := groups[|groups| - 1];
      CommitAllOpen(init);
      assert groups == init + [top];
      ReverseSnoc(init, top);
    }
  }

  /** The Grasshopper definition shown on the canvas, with its `Enabled` flag. */
  datatype CanvasDefinition = CanvasDefinition(id: DefinitionId, enabled: bool)

  /**
    The guest's state. Static fields of the source (`changeQueue`, `EnableSolutions`) and
    the host's global `GH_Document.EnableSolutions` are fields here; `calls` records the
    calls the guest makes into the hosts, in order.
   */
  class Guest {
    var changeQueue: seq<DocumentChange>
    var activeTransactionGroups: seq<DocumentId>   // a stack, top at the end
    var activeDocuments: seq<DefinitionId>         // a stack, top at the end
    var savedEnableSolutions: Option<bool>         // the static `EnableSolutions`
    var solutionsEnabled: bool                     // `GH_Document.EnableSolutions`
    var activeDefinition: Option<CanvasDefinition> // `Instances.ActiveCanvas?.Document`
    var activeDefinitionWasEnabled: bool
    var calls: seq<HostCall>

    /**
      No empty change is ever queued, and the saved `EnableSolutions` is only ever the
      value `true` that a deferred document-added event took away.
     */
    ghost predicate Valid()
      reads this
    {
      AllNonEmpty(changeQueue) && savedEnableSolutions != Some(false)
    }

    constructor (solutionsEnabled: bool, activeDefinition: Option<CanvasDefinition>)
      ensures Valid()
      ensures changeQueue == [] && activeTransactionGroups == [] && activeDocuments == []
      ensures savedEnableSolutions == None && this.solutionsEnabled == solutionsEnabled
      ensures this.activeDefinition == activeDefinition && !activeDefinitionWasEnabled && calls == []
    {
      changeQueue := [];
      activeTransactionGroups := [];
      activeDocuments := [];
      savedEnableSolutions := None;
      this.solutionsEnabled := solutionsEnabled;
      this.activeDefinition := activeDefinition;
      activeDefinitionWasEnabled := false;
      calls := [];
    }

    /** `DocumentChangedEvent.Enqueue`: queue the change and, unless a solution made it, raise the flush. */
    method Enqueue(change: DocumentChange)
      requires Valid() && |change.expired| > 0
      modifies this
      ensures Valid()
      ensures changeQueue == old(changeQueue) + [change]
      ensures calls == old(calls) + EnqueueCalls(change)
      ensures activeTransactionGroups == old(activeTransactionGroups) && activeDocuments == old(activeDocuments)
      ensures savedEnableSolutions == old(savedEnableSolutions) && solutionsEnabled == old(solutionsEnabled)
      ensures activeDefinition == old(activeDefinition) && activeDefinitionWasEnabled == old(activeDefinitionWasEnabled)
    {
      changeQueue := changeQueue + [change];
      if change.definition.solutionState != Process {
        calls := calls + [RaiseFlush];
      }
    }

    /** The tests `OnDocumentChanged` applies to one object of a definition. */
    static method ShouldExpire(obj: ActiveObject, expiring: set<ObjectId>) returns (expires: bool)
      ensures expires == Expires(obj, expiring)
    {
      expires := false;
      if obj.ElementIdParam? {
        if obj.locked {
          return;
        }
        if obj.dataType == Remote {
          return;
        }
        expires := obj.id in expiring;
      } else if obj.ElementIdComponent? {
        if obj.locked {
          return;
        }
        expires := obj.id in expiring;
      }
    }

    /** The loop of `OnDocumentChanged` over one definition's objects. */
    static method CollectExpired(objects: seq<ActiveObject>, expiring: set<ObjectId>) returns (expired: seq<ActiveObject>)
      ensures expired == ExpiredObjects(objects, expiring)
    {
      expired := [];
      var i := 0;
      while i < |objects|
        invariant 0 <= i <= |objects|
        invariant ExpiredObjects(objects, expiring) == expired + ExpiredObjects(objects[i..], expiring)
      {
        var obj := objects[i];
        ghost var rest := ExpiredObjects(objects[i + 1..], expiring);
        ghost var step := if Expires(obj, expiring) then [obj] else [];
        ExpiredObjectsStep(objects, i, expiring);
        assert expired + (step + rest) == (expired + step) + rest;
        ghost var before := expired;
        var expires := ShouldExpire(obj, expiring);
        if expires {
          expired := expired + [obj];
        } else {
          assert before + [] == before;
        }
        assert expired == before + step;
        i := i + 1;
      }
    }

    /**
      `OnDocumentChanged`: when the event reports any element id, queue for every definition
      the change of the objects it expires, if there are any.
     */
    method OnDocumentChanged(e: DocumentChangedArgs, definitions: seq<Definition>, expiring: set<ObjectId>)
      requires Valid()
      modifies this
      ensures Valid()
      ensures changeQueue == old(changeQueue) + PendingChanges(e, definitions, expiring)
      ensures calls == old(calls) + EnqueueAllCalls(PendingChanges(e, definitions, expiring))
      ensures activeTransactionGroups == old(activeTransactionGroups) && activeDocuments == old(activeDocuments)
      ensures savedEnableSolutions == old(savedEnableSolutions) && solutionsEnabled == old(solutionsEnabled)
      ensures activeDefinition == old(activeDefinition) && activeDefinitionWasEnabled == old(activeDefinitionWasEnabled)
    {
      if |e.added| > 0 || |e.deleted| > 0 || |e.modified| > 0 {
        EnqueueAll(e, definitions, expiring);
      } else {
        assert PendingChanges(e, definitions, expiring) == [];
      }
    }

    /** The loop of `OnDocumentChanged` over the definitions, once the event reports an element id. */
    method EnqueueAll(e: DocumentChangedArgs, definitions: seq<Definition>, expiring: set<ObjectId>)
      requires Valid() && HasElementChanges(e)
      modifies this
      ensures Valid()
      ensures changeQueue == old(changeQueue) + PendingChanges(e, definitions, expiring)
      ensures calls == old(calls) + EnqueueAllCalls(PendingChanges(e, definitions, expiring))
      ensures activeTransactionGroups == old(activeTransactionGroups) && activeDocuments == old(activeDocuments)
      ensures savedEnableSolutions == old(savedEnableSolutions) && solutionsEnabled == old(solutionsEnabled)
      ensures activeDefinition == old(activeDefinition) && activeDefinitionWasEnabled == old(activeDefinitionWasEnabled)
    {
      var i := 0;
      ghost var done: seq<DocumentChange> := [];
      assert definitions[i..] == definitions;
      while i < |definitions|
        invariant 0 <= i <= |definitions|
        invariant Valid()
        invariant PendingChanges(e, definitions, expiring) == done + PendingChanges(e, definitions[i..], expiring)
        invariant changeQueue == old(changeQueue) + done
        invariant calls == old(calls) + EnqueueAllCalls(done)
        invariant activeTransactionGroups == old(activeTransactionGroups) && activeDocuments == old(activeDocuments)
        invariant savedEnableSolutions == old(savedEnableSolutions) && solutionsEnabled == old(solutionsEnabled)
        invariant activeDefinition == old(activeDefinition) && activeDefinitionWasEnabled == old(activeDefinitionWasEnabled)
      {
        var enqueued := EnqueueExpired(e, definitions[i], expiring);
        ghost var step := if enqueued then [ChangeFor(e, definitions[i], expiring)] else [];
        AppendAssociative(old(changeQueue), done, step);
        PendingChangesStep(e, definitions, i, expiring);
        AppendAssociative(done, step, PendingChanges(e, definitions[i + 1..], expiring));
        EnqueueAllCallsAppend(done, step);
        EnqueueAllCallsStep(step);
        AppendAssociative(old(calls), EnqueueAllCalls(done), EnqueueAllCalls(step));
        done := done + step;
        i := i + 1;
      }
      assert definitions[i..] == [] && done + [] == done;
    }

    /** One pass of `OnDocumentChanged`'s loop: queue the definition's change if it expires anything. */
    method EnqueueExpired(e: DocumentChangedArgs, definition: Definition, expiring: set<ObjectId>) returns (enqueued: bool)
      requires Valid()
      modifies this
      ensures Valid()
      ensures enqueued <==> |ChangeFor(e, definition, expiring).expired| > 0
      ensures changeQueue == old(changeQueue) + (if enqueued then [ChangeFor(e, definition, expiring)] else [])
      ensures calls == old(calls) + (if enqueued then EnqueueCalls(ChangeFor(e, definition, expiring)) else [])
      ensures activeTransactionGroups == old(activeTransactionGroups) && activeDocuments == old(activeDocuments)
      ensures savedEnableSolutions == old(savedEnableSolutions) && solutionsEnabled == old(solutionsEnabled)
      ensures activeDefinition == old(activeDefinition) && activeDefinitionWasEnabled == old(activeDefinitionWasEnabled)
    {
      var expired := CollectExpired(definition.objects, expiring);
      var change := DocumentChange(e.operation, e.document, definition, expired);
      enqueued := |change.expired| > 0;
      if enqueued {
        Enqueue(change);
      }
    }

    /**
      The flush handler's `Execute`: dequeue every change, oldest first, and run its
      `NewSolution`.
     */
    method FlushQueue()
      requires Valid()
      modifies this
      ensures Valid()
      ensures changeQueue == []
      ensures calls == old(calls) + FlushCalls(old(changeQueue))
      ensures activeTransactionGroups == old(activeTransactionGroups) && activeDocuments == old(activeDocuments)
      ensures savedEnableSolutions == old(savedEnableSolutions) && solutionsEnabled == old(solutionsEnabled)
      ensures activeDefinition == old(activeDefinition) && activeDefinitionWasEnabled == old(activeDefinitionWasEnabled)
    {
      while |changeQueue| > 0
        invariant Valid()
        invariant old(calls) + FlushCalls(old(changeQueue)) == calls + FlushCalls(changeQueue)
        invariant activeTransactionGroups == old(activeTransactionGroups) && activeDocuments == old(activeDocuments)
        invariant savedEnableSolutions == old(savedEnableSolutions) && solutionsEnabled == old(solutionsEnabled)
        invariant activeDefinition == old(activeDefinition) && activeDefinitionWasEnabled == old(activeDefinitionWasEnabled)
        decreases |changeQueue|
      {
        var change := changeQueue[0];
        changeQueue := changeQueue[1..];
        NewSolution(change);
      }
    }

    /** `DocumentChangedEvent.NewSolution`: expire each object, then re-solve after a committed transaction. */
    method NewSolution(change: DocumentChange)
      modifies this`calls
      ensures calls == old(calls) + NewSolutionCalls(change)
    {
      var k := 0;
      while k < |change.expired|
        invariant 0 <= k <= |change.expired|
        invariant |old(calls)| <= |calls| && calls[..|old(calls)|] == old(calls)
        invariant ExpireCalls(change.expired) == calls[|old(calls)|..] + ExpireCalls(change.expired[k..])
      {
        assert change.expired[k..][0] == change.expired[k] && change.expired[k..][1..] == change.expired[k + 1..];
        calls := calls + [ExpireSolution(change.expired[k].id)];
        k := k + 1;
      }
      if change.operation == TransactionCommitted {
        calls := calls + [Host.NewSolution(change.definition.id)];
      }
    }

    /** `StartTransactionGroups`: push one started group per eligible document. */
    method StartTransactionGroups(documents: seq<RevitDocument>)
      requires |activeDocuments| > 0
      modifies this`activeTransactionGroups, this`calls
      ensures activeTransactionGroups == old(activeTransactionGroups) + GroupDocuments(documents)
      ensures calls == old(calls) + StartCalls(GroupDocuments(documents))
    {
      var i := 0;
      ghost var pushed: seq<DocumentId> := [];
      assert documents[i..] == documents;
      while i < |documents|
        invariant 0 <= i <= |documents|
        invariant activeTransactionGroups == old(activeTransactionGroups) + pushed
        invariant calls == old(calls) + StartCalls(pushed)
        invariant GroupDocuments(documents) == pushed + GroupDocuments(documents[i..])
      {
        GroupDocumentsStep(documents, i);
        var doc := documents[i];
        if !doc.isLinked && !doc.isReadOnly && !doc.isModifiable {
          AppendAssociative(pushed, [doc.id], GroupDocuments(documents[i + 1..]));
          AppendAssociative(old(activeTransactionGroups), pushed, [doc.id]);
          AppendAssociative(old(calls), StartCalls(pushed), [StartGroup(doc.id)]);
          calls := calls + [StartGroup(doc.id)];
          activeTransactionGroups := activeTransactionGroups + [doc.id];
          StartCallsSnoc(pushed, doc.id);
          pushed := pushed + [doc.id];
        }
        i := i + 1;
      }
      assert documents[i..] == [] && pushed + [] == pushed;
    }

    /**
      `CommitTransactionGroups`: pop every group, assimilating the valid ones; an exception
      from one assimilation does not stop the loop, so the stack always ends empty.
     */
    method CommitTransactionGroups(closed: set<DocumentId>)
      modifies this`activeTransactionGroups, this`calls
      ensures activeTransactionGroups == []
      ensures calls == old(calls) + CommitCalls(old(activeTransactionGroups), closed)
    {
      while |activeTransactionGroups| > 0
        invariant old(calls) + CommitCalls(old(activeTransactionGroups), closed)
          == calls + CommitCalls(activeTransactionGroups, closed)
        decreases |activeTransactionGroups|
      {
        var group := activeTransactionGroups[|activeTransactionGroups| - 1];
        activeTransactionGroups := activeTransactionGroups[..|activeTransactionGroups| - 1];
        if group !in closed {
          calls := calls + [Assimilate(group)];
        }
      }
    }

    /** `ActiveDefinition_SolutionStart`: make the definition active and open the groups. */
    method SolutionStart(definition: DefinitionId, documents: seq<RevitDocument>)
      requires Valid()
      modifies this
      ensures Valid()
      ensures activeDocuments == old(activeDocuments) + [definition]
      ensures activeTransactionGroups == old(activeTransactionGroups) + GroupDocuments(documents)
      ensures calls == old(calls) + StartCalls(GroupDocuments(documents))
      ensures changeQueue == old(changeQueue)
      ensures savedEnableSolutions == old(savedEnableSolutions) && solutionsEnabled == old(solutionsEnabled)
      ensures activeDefinition == old(activeDefinition) && activeDefinitionWasEnabled == old(activeDefinitionWasEnabled)
    {
      activeDocuments := activeDocuments + [definition];
      StartTransactionGroups(documents);
    }

    /**
      `ActiveDefinition_SolutionEnd`: commit the groups, pop the active definition, then
      drain the change queue, clearing every expired object, and report how many expired.
     */
    method SolutionEnd(closed: set<DocumentId>)
      requires Valid() && |activeDocuments| > 0
      modifies this
      ensures Valid()
      ensures activeTransactionGroups == [] && changeQueue == []
      ensures activeDocuments == old(activeDocuments)[..|old(activeDocuments)| - 1]
      ensures calls == old(calls) + CommitCalls(old(activeTransactionGroups), closed)
        + DrainCalls(old(changeQueue)) + StatusFor(TotalExpired(old(changeQueue)))
      ensures savedEnableSolutions == old(savedEnableSolutions) && solutionsEnabled == old(solutionsEnabled)
      ensures activeDefinition == old(activeDefinition) && activeDefinitionWasEnabled == old(activeDefinitionWasEnabled)
    {
      CommitTransactionGroups(closed);
      activeDocuments := activeDocuments[..|activeDocuments| - 1];
      ghost var afterCommit := calls;
      var expiredObjectsCount := DrainQueue();
      assert afterCommit == old(calls) + CommitCalls(old(activeTransactionGroups), closed);
      if expiredObjectsCount > 0 {
        var message := if expiredObjectsCount == 1 then OneObjectExpired else ObjectsExpired(expiredObjectsCount);
        calls := calls + [SetStatusBar(message)];
      } else {
        assert calls + [] == calls;
      }
    }

    /** The drain loop of `OnSolutionEnd`: clear every queued change's objects, counting them. */
    method DrainQueue() returns (expiredObjectsCount: nat)
      modifies this`changeQueue, this`calls
      ensures changeQueue == []
      ensures expiredObjectsCount == TotalExpired(old(changeQueue))
      ensures calls == old(calls) + DrainCalls(old(changeQueue))
    {
      expiredObjectsCount := 0;
      while |changeQueue| > 0
        invariant TotalExpired(old(changeQueue)) == expiredObjectsCount + TotalExpired(changeQueue)
        invariant old(calls) + DrainCalls(old(changeQueue)) == calls + DrainCalls(changeQueue)
        decreases |changeQueue|
      {
        var change := changeQueue[0];
        AppendAssociative(calls, ClearCalls(change.expired), DrainCalls(changeQueue[1..]));
        changeQueue := changeQueue[1..];
        expiredObjectsCount := expiredObjectsCount + |change.expired|;
        ClearExpired(change.expired);
      }
      assert calls + [] == calls;
    }

    /** Clear each expired object and add the remark that says why. */
    method ClearExpired(objects: seq<ActiveObject>)
      modifies this`calls
      ensures calls == old(calls) + ClearCalls(objects)
    {
      var k := 0;
      while k < |objects|
        invariant 0 <= k <= |objects|
        invariant |old(calls)| <= |calls| && calls[..|old(calls)|] == old(calls)
        invariant ClearCalls(objects) == calls[|old(calls)|..] + ClearCalls(objects[k..])
      {
        assert objects[k..][0] == objects[k] && objects[k..][1..] == objects[k + 1..];
        calls := calls + [ClearData(objects[k].id), ObsoleteRemark(objects[k].id)];
        k := k + 1;
      }
    }

    /**
      A whole solution: the active-definition stack is back to what it was, the group stack
      is empty, and with every document open each group started is assimilated, last
      started first.
     */
    method SolutionCycle(definition: DefinitionId, documents: seq<RevitDocument>)
      requires Valid() && activeTransactionGroups == []
      modifies this
      ensures Valid()
      ensures activeDocuments == old(activeDocuments)
      ensures activeTransactionGroups == [] && changeQueue == []
      ensures calls == old(calls) + StartCalls(GroupDocuments(documents))
        + AssimilateCalls(Reverse(GroupDocuments(documents)))
        + DrainCalls(old(changeQueue)) + StatusFor(TotalExpired(old(changeQueue)))
    {
      SolutionStart(definition, documents);
      assert activeTransactionGroups == GroupDocuments(documents);
      SolutionEnd({});
      CommitAllOpen(GroupDocuments(documents));
      assert (old(activeDocuments) + [definition])[..|old(activeDocuments)|] == old(activeDocuments);
    }

    /** `ActivationGate_Enter`: enable the canvas definition and restore a deferred `EnableSolutions`. */
    method ActivationGateEnter()
      requires Valid()
      modifies this
      ensures Valid()
      ensures activeDefinition == if old(activeDefinition).Some? then Some(old(activeDefinition).value.(enabled := true)) else None
      ensures savedEnableSolutions == None
      ensures solutionsEnabled == if old(savedEnableSolutions).Some? then old(savedEnableSolutions).value else old(solutionsEnabled)
      ensures changeQueue == old(changeQueue) && calls == old(calls)
      ensures activeTransactionGroups == old(activeTransactionGroups) && activeDocuments == old(activeDocuments)
      ensures activeDefinitionWasEnabled == old(activeDefinitionWasEnabled)
    {
      if activeDefinition.Some? {
        activeDefinition := Some(activeDefinition.value.(enabled := true));
      }
      if savedEnableSolutions.Some? {
        solutionsEnabled := savedEnableSolutions.value;
        savedEnableSolutions := None;
      }
    }

    /** `ActivationGate_Exit`: disable the canvas definition. */
    method ActivationGateExit()
      requires Valid()
      modifies this
      ensures Valid()
      ensures activeDefinition == if old(activeDefinition).Some? then Some(old(activeDefinition).value.(enabled := false)) else None
      ensures savedEnableSolutions == old(savedEnableSolutions) && solutionsEnabled == old(solutionsEnabled)
      ensures changeQueue == old(changeQueue) && calls == old(calls)
      ensures activeTransactionGroups == old(activeTransactionGroups) && activeDocuments == old(activeDocuments)
      ensures activeDefinitionWasEnabled == old(activeDefinitionWasEnabled)
    {
      if activeDefinition.Some? {
        activeDefinition := Some(activeDefinition.value.(enabled := false));
      }
    }

    /**
      `DocumentServer_DocumentAdded`: while the gate is closed, turn solutions off and
      remember to turn them back on at the next gate entry.
     */
    method DocumentAdded(gateIsOpen: bool)
      requires Valid()
      modifies this
      ensures Valid()
      ensures !gateIsOpen && old(solutionsEnabled) ==> !solutionsEnabled && savedEnableSolutions == Some(true)
      ensures gateIsOpen || !old(solutionsEnabled) ==>
        solutionsEnabled == old(solutionsEnabled) && savedEnableSolutions == old(savedEnableSolutions)
      ensures activeDefinition == old(activeDefinition) && activeDefinitionWasEnabled == old(activeDefinitionWasEnabled)
      ensures changeQueue == old(changeQueue) && calls == old(calls)
      ensures activeTransactionGroups == old(activeTransactionGroups) && activeDocuments == old(activeDocuments)
    {
      if !gateIsOpen {
        if solutionsEnabled {
          solutionsEnabled := false;
          savedEnableSolutions := Some(true);
        }
      }
    }

    /** `BeginOpenDocument`: remember whether the canvas definition was enabled, then disable it. */
    method BeginOpenDocument()
      requires Valid()
      modifies this
      ensures Valid()
      ensures old(activeDefinition).Some? ==>
        activeDefinitionWasEnabled == old(activeDefinition).value.enabled
        && activeDefinition == Some(old(activeDefinition).value.(enabled := false))
      ensures old(activeDefinition).None? ==>
        activeDefinitionWasEnabled == old(activeDefinitionWasEnabled) && activeDefinition == None
      ensures savedEnableSolutions == old(savedEnableSolutions) && solutionsEnabled == old(solutionsEnabled)
      ensures changeQueue == old(changeQueue) && calls == old(calls)
      ensures activeTransactionGroups == old(activeTransactionGroups) && activeDocuments == old(activeDocuments)
    {
      if activeDefinition.Some? {
        activeDefinitionWasEnabled := activeDefinition.value.enabled;
        activeDefinition := Some(activeDefinition.value.(enabled := false));
      }
    }

    /** `EndOpenDocumentInitialViewUpdate`: restore the remembered flag and re-solve the canvas definition. */
    method EndOpenDocumentInitialViewUpdate()
      requires Valid()
      modifies this
      ensures Valid()
      ensures old(activeDefinition).Some? ==>
        activeDefinition == Some(old(activeDefinition).value.(enabled := old(activeDefinitionWasEnabled)))
        && calls == old(calls) + [Host.NewSolution(old(activeDefinition).value.id)]
      ensures old(activeDefinition).None? ==> activeDefinition == None && calls == old(calls)
      ensures activeDefinitionWasEnabled == old(activeDefinitionWasEnabled)
      ensures savedEnableSolutions == old(savedEnableSolutions) && solutionsEnabled == old(solutionsEnabled)
      ensures changeQueue == old(changeQueue)
      ensures activeTransactionGroups == old(activeTransactionGroups) && activeDocuments == old(activeDocuments)
    {
      if activeDefinition.Some? {
        activeDefinition := Some(activeDefinition.value.(enabled := activeDefinitionWasEnabled));
        calls := calls + [Host.NewSolution(activeDefinition.value.id)];
      }
    }

    /**
      A document added while the gate is closed with solutions on: solutions stay off until
      the next gate entry, which turns them back on and forgets the saved value.
     */
    method DeferredEnable()
      requires Valid() && solutionsEnabled && savedEnableSolutions == None
      modifies this
      ensures Valid()
      ensures solutionsEnabled && savedEnableSolutions == None
      ensures changeQueue == old(changeQueue) && calls == old(calls)
    {
      DocumentAdded(false);
      assert !solutionsEnabled && savedEnableSolutions == Some(true);
      ActivationGateEnter();
    }
  }

  lemma {:induction false} StartCallsSnoc(groups: seq<DocumentId>, d: DocumentId)
    ensures StartCalls(groups + [d]) == StartCalls(groups) + [StartGroup(d)]
  {
    if groups == [] {
      assert groups + [d] == [d];
    } else {
      assert (groups + [d])[1..] == groups[1..] + [d];
      StartCallsSnoc(groups[1..], d);
    }
  }

  lemma {:induction false} EnqueueAllCallsAppend(a: seq<DocumentChange>, b: seq<DocumentChange>)
    ensures EnqueueAllCalls(a + b) == EnqueueAllCalls(a) + EnqueueAllCalls(b)
  {
    if a == [] {
      assert a + b == b;
    } else {
      assert (a + b)[1..] == a[1..] + b;
      EnqueueAllCallsAppend(a[1..], b);
    }
  }

  lemma EnqueueAllCallsStep(step: seq<DocumentChange>)
    requires |step| <= 1
    ensures EnqueueAllCalls(step) == if step == [] then [] else EnqueueCalls(step[0])
  {
    if step != [] {
      assert step[1..] == [];
      assert EnqueueCalls(step[0]) + [] == EnqueueCalls(step[0]);
    }
  }

  lemma GroupDocumentsStep(documents: seq<RevitDocument>, i: nat)
    requires i < |documents|
    ensures GroupDocuments(documents[i..])
      == (if NeedsGroup(documents[i]) then [documents[i].id] else []) + GroupDocuments(documents[i + 1..])
  {
    assert documents[i..][0] == documents[i] && documents[i..][1..] == documents[i + 1..];
  }

  lemma PendingChangesStep(e: DocumentChangedArgs, definitions: seq<Definition>, i: nat, expiring: set<ObjectId>)
    requires HasElementChanges(e) && i < |definitions|
    ensures PendingChanges(e, definitions[i..], expiring)
      == (if |ChangeFor(e, definitions[i], expiring).expired| > 0 then [ChangeFor(e, definitions[i], expiring)] else [])
         + PendingChanges(e, definitions[i + 1..], expiring)
  {
    assert definitions[i..][0] == definitions[i] && definitions[i..][1..] == definitions[i + 1..];
  }

  lemma ExpiredObjectsStep(objects: seq<ActiveObject>, i: nat, expiring: set<ObjectId>)
    requires i < |objects|
    ensures ExpiredObjects(objects[i..], expiring)
      == (if Expires(objects[i], expiring) then [objects[i]] else []) + ExpiredObjects(objects[i + 1..], expiring)
  {
    assert objects[i..][0] == objects[i] && objects[i..][1..] == objects[i + 1..];
  }
}
