/** One asynchronous writer that makes analyst projects durable, one document at a time. */
module SaveProtocol {
  import opened Machine

  datatype SaveState = Clean | Dirty | Saving | Failed

  datatype Persistence = DurableSnapshot | RequiresInitialSave | Ephemeral

  /** Analyst content, and the description of the image it is stamped with when saved. */
  datatype Project = Project(content: string, stamp: string)

  datatype Ticket = Ticket(document: nat, generation: nat, revision: nat)

  datatype Document = Document(generation: nat, revision: nat, savedRevision: nat, saveState: SaveState,
                               persistence: Persistence, loaded: bool, mapped: bool, hash: u64,
                               stamp: string, project: Project, draftPending: bool)
  {
    predicate IsDirty() {
      revision != savedRevision
    }

    /** Whether a store may hold a sidecar for this document. */
    predicate Keyed() {
      hash != 0 && persistence != Ephemeral
    }

    predicate Persistent() {
      loaded && Keyed() && !mapped
    }

    function MarkDirty(): Document {
      this.(revision := revision + 1, saveState := Dirty)
    }

    predicate Owns(id: nat, ticket: Ticket) {
      ticket.document == id && ticket.generation == generation && ticket.revision <= revision
    }

    /** The durable watermark never moves back, and edits behind the ticket stay dirty. */
    function Acknowledged(ticket: Ticket): Document {
      var saved := Max(savedRevision, ticket.revision);
      this.(savedRevision := saved, saveState := if revision != saved then Dirty else Clean)
    }

    function Rejected(id: nat, ticket: Ticket): Document {
      if Owns(id, ticket) && ticket.revision > savedRevision then this.(saveState := Failed) else this
    }

    function Stamped(): Document {
      this.(project := project.(stamp := stamp))
    }
  }

  const MAX_DOCUMENTS: nat := 8

  /** The document that keeps the window when nothing is open. */
  const SCRATCH := Document(0, 0, 0, Clean, DurableSnapshot, false, false, 0, "", Project("", ""), false)

  type Documents = map<nat, Document>
  type Sidecars = map<u64, Project>

  /** Projects without content get no first sidecar, but overwrite one that exists. */
  function Store(sidecars: Sidecars, key: u64, project: Project): Sidecars {
    if project.content != "" || key in sidecars then sidecars[key := project] else sidecars
  }

  /** What a reload would find is this project. */
  predicate Durable(sidecars: Sidecars, key: u64, project: Project) {
    if key in sidecars then sidecars[key] == project else project.content == ""
  }

  /** The writer: the snapshot it took, and what it reported once it finished. */
  datatype Worker = Worker(ticket: Ticket, appRevision: nat, sequence: nat, key: u64, snapshot: Project, done: Option<bool>)

  // ---------------------------------------------------------------------------
  // What always holds.

  /** A document that is not dirty has its project in the store. */
  ghost predicate CleanMeansDurable(documents: Documents, sidecars: Sidecars) {
    forall id :: id in documents ==>
      documents[id].savedRevision <= documents[id].revision && (documents[id].hash != 0 ==> documents[id].loaded) &&
      (documents[id].Persistent() && !documents[id].IsDirty() ==> Durable(sidecars, documents[id].hash, documents[id].project))
  }

  ghost predicate DistinctKeys(documents: Documents) {
    forall i, j :: i in documents && j in documents && i != j && documents[i].Keyed() && documents[j].Keyed() ==>
      documents[i].hash != documents[j].hash
  }

  /** The writer's snapshot is the project of its revision, which nobody has acknowledged yet. */
  ghost predicate WorkerFits(documents: Documents, sidecars: Sidecars, w: Worker) {
    var t := w.ticket;
    && t.document in documents
    && var d := documents[t.document];
    && t.generation == d.generation && d.Persistent() && w.key == d.hash
    && d.savedRevision < t.revision <= d.revision
    && (d.revision == t.revision ==> d.project == w.snapshot)
    && (w.done == Some(true) ==> Durable(sidecars, w.key, w.snapshot))
  }

  /** Every writer that was started has finished, in the order they started, but for the current one. */
  ghost predicate OneWriter(started: seq<nat>, finished: seq<nat>, worker: Option<Worker>, next: nat) {
    && started == finished + (if worker.Some? then [worker.value.sequence] else [])
    && (forall i, j :: 0 <= i < j < |started| ==> started[i] < started[j])
    && (forall i :: 0 <= i < |started| ==> started[i] < next)
  }

  lemma StartNext(started: seq<nat>, finished: seq<nat>, next: nat, w: Worker)
    requires OneWriter(started, finished, None, next) && w.sequence == next
    ensures OneWriter(started + [next], finished, Some(w), next + 1)
  {
  }

  lemma FinishCurrent(started: seq<nat>, finished: seq<nat>, next: nat, w: Worker)
    requires OneWriter(started, finished, Some(w), next)
    ensures OneWriter(started, finished + [w.sequence], None, next)
  {
  }

  lemma StoreMakesDurable(documents: Documents, sidecars: Sidecars, key: u64, project: Project)
    ensures Durable(Store(sidecars, key, project), key, project)
    ensures forall k, p :: k != key ==> Durable(Store(sidecars, key, project), k, p) == Durable(sidecars, k, p)
  {
  }

  /** Writing for one keyed, dirty document leaves every clean one durable. */
  lemma StoreKeepsOthers(documents: Documents, sidecars: Sidecars, id: nat, project: Project)
    requires CleanMeansDurable(documents, sidecars) && DistinctKeys(documents)
    requires id in documents && documents[id].Keyed() && documents[id].IsDirty()
    ensures CleanMeansDurable(documents, Store(sidecars, documents[id].hash, project))
  {
    StoreMakesDurable(documents, sidecars, documents[id].hash, project);
  }

  /** Replacing one document by one that is dirty or durable keeps all clean ones durable. */
  lemma ReplaceKeeps(documents: Documents, sidecars: Sidecars, id: nat, d: Document)
    requires CleanMeansDurable(documents, sidecars) && DistinctKeys(documents)
    requires d.savedRevision <= d.revision && (d.hash != 0 ==> d.loaded)
    requires d.Persistent() && !d.IsDirty() ==> Durable(sidecars, d.hash, d.project)
    requires d.Keyed() ==> forall i :: i in documents && i != id && documents[i].Keyed() ==> documents[i].hash != d.hash
    ensures CleanMeansDurable(documents[id := d], sidecars) && DistinctKeys(documents[id := d])
  {
  }

  lemma EditKeeps(documents: Documents, sidecars: Sidecars, id: nat, d: Document, worker: Option<Worker>)
    requires CleanMeansDurable(documents, sidecars) && DistinctKeys(documents) && id in documents
    requires worker.Some? ==> WorkerFits(documents, sidecars, worker.value)
    requires d == documents[id].(project := d.project).MarkDirty() || (!d.Persistent() && d == documents[id].(project := d.project))
    ensures CleanMeansDurable(documents[id := d], sidecars) && DistinctKeys(documents[id := d])
    ensures documents[id].savedRevision <= documents[id].revision
    ensures worker.Some? ==> WorkerFits(documents[id := d], sidecars, worker.value)
  {
    ReplaceKeeps(documents, sidecars, id, d);
  }

  /** What a completion does to its document: the captured revision is durable, later edits stay dirty. */
  lemma Completes(documents: Documents, sidecars: Sidecars, w: Worker, saved: bool)
    requires CleanMeansDurable(documents, sidecars) && DistinctKeys(documents) && WorkerFits(documents, sidecars, w)
    requires w.done == Some(saved)
    ensures w.ticket.document in documents
    ensures var id, t := w.ticket.document, w.ticket;
            var d := if saved then documents[id].Acknowledged(t) else documents[id].Rejected(id, t);
            && documents[id].Owns(id, t)
            && CleanMeansDurable(documents[id := d], sidecars) && DistinctKeys(documents[id := d])
            && d.savedRevision == (if saved then t.revision else documents[id].savedRevision)
            && d.saveState == (if !saved then Failed else if t.revision < documents[id].revision then Dirty else Clean)
            && (d.IsDirty() <==> !saved || t.revision < documents[id].revision)
            && (saved ==> Durable(sidecars, w.key, w.snapshot))
  {
    var id, t := w.ticket.document, w.ticket;
    ReplaceKeeps(documents, sidecars, id, if saved then documents[id].Acknowledged(t) else documents[id].Rejected(id, t));
  }

  /**
    The documents after a completion: only the writer's document moved, its captured revision is saved
    or still unsaved, and edits behind the snapshot stay dirty.
   */
  ghost predicate Settled(before: Documents, after: Documents, t: Ticket, saved: bool) {
    var id := t.document;
    && id in before
    && after == before[id := if saved then before[id].Acknowledged(t) else before[id].Rejected(id, t)]
    && after[id].savedRevision == (if saved then t.revision else before[id].savedRevision)
    && after[id].saveState == (if !saved then Failed else if t.revision < before[id].revision then Dirty else Clean)
    && (after[id].IsDirty() <==> !saved || t.revision < before[id].revision)
  }

  /** Saving changes no analyst content and no revision. */
  ghost predicate SameWork(before: Documents, after: Documents) {
    && before.Keys == after.Keys
    && forall id :: id in before ==>
         var x, y := before[id], after[id];
         && x.project.content == y.project.content && x.revision == y.revision && x.generation == y.generation
         && x.hash == y.hash && x.persistence == y.persistence && x.loaded == y.loaded && x.mapped == y.mapped
         && x.savedRevision <= y.savedRevision && x.draftPending == y.draftPending
  }

  /** A reload finds the content this persistent document had. */
  ghost predicate Reloads(sidecars: Sidecars, d: Document) {
    d.Persistent() ==>
      if d.hash in sidecars then sidecars[d.hash].content == d.project.content else d.project.content == ""
  }

  predicate HasContent(d: Document, hash: u64) {
    d.loaded && d.hash == hash
  }

  ghost predicate OpenAlready(documents: Documents, hash: u64) {
    exists i :: i in documents && HasContent(documents[i], hash)
  }

  lemma OneDocument(documents: Documents, id: nat)
    requires documents.Keys == {id}
    ensures |documents| == 1
  {
    assert |documents.Keys| == |documents|;
  }

  lemma OnlyOne(documents: Documents, id: nat, other: nat)
    requires |documents| == 1 && id in documents && other in documents
    ensures id == other && documents.Keys == {id}
  {
    var rest := documents.Keys - {id};
    assert |rest| == 0;
  }

  /** What saving leaves of a document is the same work, with the same reload. */
  lemma SameDocument(before: Documents, after: Documents, id: nat)
    requires SameWork(before, after)
    ensures id in before <==> id in after
    ensures id in before ==>
              && after[id].loaded == before[id].loaded && after[id].hash == before[id].hash
              && after[id].project.content == before[id].project.content && after[id].draftPending == before[id].draftPending
              && (forall sidecars :: Reloads(sidecars, after[id]) == Reloads(sidecars, before[id]))
  {
  }

  lemma SameHashes(before: Documents, after: Documents)
    requires SameWork(before, after)
    ensures forall i :: i in after ==> i in before && after[i].loaded == before[i].loaded && after[i].hash == before[i].hash
  {
  }

  lemma SameWorkWithout(a: Documents, b: Documents, id: nat)
    requires SameWork(a, b)
    ensures SameWork(a - {id}, b - {id})
  {
  }

  lemma RemoveFits(documents: Documents, sidecars: Sidecars, id: nat, worker: Option<Worker>)
    requires worker.Some? ==> WorkerFits(documents, sidecars, worker.value) && worker.value.ticket.document != id
    ensures worker.Some? ==> WorkerFits(documents - {id}, sidecars, worker.value)
  {
  }

  lemma SameWorkChainsWithout(a: Documents, b: Documents, c: Documents, extra: nat)
    requires SameWork(a, b - {extra}) && SameWork(b, c) && extra !in a && extra in b
    ensures SameWork(a, c - {extra})
  {
  }

  lemma SettledIsSameWork(before: Documents, after: Documents, t: Ticket, saved: bool)
    requires Settled(before, after, t, saved)
    ensures SameWork(before, after)
  {
  }

  lemma SavedWithin(documents: Documents, sidecars: Sidecars, id: nat)
    requires CleanMeansDurable(documents, sidecars) && id in documents
    ensures documents[id].savedRevision <= documents[id].revision
  {
  }

  /** Stamping a project and moving its saved revision change no work. */
  lemma MarkIsSameWork(documents: Documents, id: nat, d: Document)
    requires id in documents && documents[id].savedRevision <= d.savedRevision
    requires d == documents[id].(project := documents[id].project.(stamp := d.project.stamp),
                                 savedRevision := d.savedRevision, saveState := d.saveState)
    ensures SameWork(documents, documents[id := d])
  {
  }

  function TicketOf(id: nat, d: Document): Ticket {
    Ticket(id, d.generation, d.revision)
  }

  /** A ticket is for one document, one image in it, and no revision that has not been reached; any other changes nothing. */
  lemma TicketIsFor(id: nat, d: Document, t: Ticket)
    ensures d.Owns(id, t) <==> t.document == id && t.generation == d.generation && t.revision <= d.revision
    ensures !(t.document == id && t.generation == d.generation && d.savedRevision < t.revision <= d.revision) ==> d.Rejected(id, t) == d
  {
  }

  /** Taking the snapshot: the active project is stamped, and the writer carries exactly it. */
  lemma SnapshotFits(documents: Documents, sidecars: Sidecars, id: nat, w: Worker)
    requires CleanMeansDurable(documents, sidecars) && DistinctKeys(documents) && id in documents
    requires documents[id].Persistent() && documents[id].IsDirty()
    requires w.ticket == TicketOf(id, documents[id]) && w.key == documents[id].hash
    requires w.snapshot == documents[id].Stamped().project && w.done == None
    ensures var next := documents[id := documents[id].Stamped()];
            CleanMeansDurable(next, sidecars) && DistinctKeys(next) && WorkerFits(next, sidecars, w)
    ensures var next := documents[id := documents[id].Stamped().Rejected(id, w.ticket)];
            CleanMeansDurable(next, sidecars) && DistinctKeys(next)
  {
    ReplaceKeeps(documents, sidecars, id, documents[id].Stamped());
    ReplaceKeeps(documents, sidecars, id, documents[id].Stamped().Rejected(id, w.ticket));
  }

  lemma AcknowledgeTransient(documents: Documents, sidecars: Sidecars, id: nat)
    requires CleanMeansDurable(documents, sidecars) && DistinctKeys(documents) && id in documents
    requires !documents[id].Persistent()
    ensures var d := documents[id].Acknowledged(TicketOf(id, documents[id]));
            !d.IsDirty() && CleanMeansDurable(documents[id := d], sidecars) && DistinctKeys(documents[id := d])
  {
    ReplaceKeeps(documents, sidecars, id, documents[id].Acknowledged(TicketOf(id, documents[id])));
  }

  /** A writer that carried the current revision leaves its document clean, with its project in the store. */
  lemma CompletedIsDurable(documents: Documents, sidecars: Sidecars, id: nat)
    requires CleanMeansDurable(documents, sidecars) && id in documents
    requires documents[id].Persistent() && !documents[id].IsDirty()
    ensures Durable(sidecars, documents[id].hash, documents[id].project)
  {
  }

  /** Nothing stands in the way of a save: a writer can be started, and no writer fails. */
  predicate Willing(startable: bool, pending: bool, outcome: bool, worker: Option<Worker>) {
    startable && pending && outcome && (worker.Some? ==> worker.value.done != Some(false))
  }

  /** A document's own save succeeds: there is nothing to write, or what it writes has a key and is written. */
  predicate Flushes(d: Document, outcome: bool) {
    d.persistence == Ephemeral || d.revision == d.savedRevision || (outcome && d.hash != 0)
  }

  // ---------------------------------------------------------------------------
  // The controller.

  class AppContext {
    var documents: Documents
    var active: nat
    var worker: Option<Worker>
    var sidecars: Sidecars
    var projectRevision: nat
    var projectSavedRevision: nat
    var projectSaveState: SaveState
    var nextSequence: nat
    var completedSequence: nat
    ghost var started: seq<nat>
    ghost var finished: seq<nat>

    ghost predicate Valid()
      reads this
    {
      && active in documents
      && CleanMeansDurable(documents, sidecars) && DistinctKeys(documents)
      && (worker.Some? ==> WorkerFits(documents, sidecars, worker.value))
      && OneWriter(started, finished, worker, nextSequence)
    }

    constructor (scratch: Document)
      requires !scratch.loaded && scratch.hash == 0 && scratch.savedRevision <= scratch.revision
      ensures Valid() && worker == None
    {
      documents, active, worker, sidecars := map[1 := scratch], 1, None, map[];
      projectRevision, projectSavedRevision, projectSaveState := 0, 0, Clean;
      nextSequence, completedSequence, started, finished := 1, 0, [], [];
    }

    /** The writer runs to its end at any time between its start and its join. */
    method WorkerRuns(outcome: bool)
      requires Valid() && worker.Some? && worker.value.done.None?
      modifies this`worker, this`sidecars
      ensures Valid()
      ensures worker == Some(old(worker).value.(done := Some(outcome)))
      ensures outcome ==> Durable(sidecars, worker.value.key, worker.value.snapshot)
      ensures sidecars == if outcome then Store(old(sidecars), worker.value.key, worker.value.snapshot) else old(sidecars)
    {
      var w := worker.value;
      if outcome {
        StoreMakesDurable(documents, sidecars, w.key, w.snapshot);
        StoreKeepsOthers(documents, sidecars, w.ticket.document, w.snapshot);
        sidecars := Store(sidecars, w.key, w.snapshot);
      }
      worker := Some(w.(done := Some(outcome)));
    }

    /** An analyst edit of the active project, and its dirty mark. */
    method Edit(content: string)
      requires Valid()
      modifies this
      ensures Valid()
      ensures documents.Keys == old(documents).Keys && active == old(active)
      ensures forall id :: id in documents && id != active ==> documents[id] == old(documents)[id]
      ensures documents[active].project == old(documents)[active].project.(content := content)
      ensures documents[active].Persistent() ==>
                documents[active].IsDirty() && documents[active].revision == old(documents)[active].revision + 1
      ensures documents[active].savedRevision == old(documents)[active].savedRevision
      ensures documents[active].Persistent() ==> documents[active].saveState == Dirty
      ensures documents[active].Persistent() ==>
                projectRevision == old(projectRevision) + 1 && projectSaveState == if worker.Some? then Saving else Dirty
      ensures worker == old(worker) && sidecars == old(sidecars)
    {
      hide CleanMeansDurable, DistinctKeys, WorkerFits, OneWriter;
      var d := documents[active];
      d := d.(project := d.project.(content := content));
      if d.loaded && !d.mapped && d.hash != 0 {
        d := d.MarkDirty();
        projectRevision := projectRevision + 1;
        projectSaveState := if worker.Some? then Saving else Dirty;
      }
      EditKeeps(documents, sidecars, active, d, worker);
      documents := documents[active := d];
    }

    /** Publishes the result of a finished writer to the document it was started for. */
    method PublishCompletion() returns (saved: bool)
      requires Valid() && worker.Some? && worker.value.done.Some?
      modifies this
      ensures Valid() && active == old(active) && nextSequence == old(nextSequence) && sidecars == old(sidecars)
      ensures worker == None && started == old(started) && finished == old(finished) + [old(worker).value.sequence]
      ensures saved == old(worker).value.done.value
      ensures projectSaveState == Failed <==> !saved
      ensures saved ==> projectSaveState == if documents[active].IsDirty() then Dirty else Clean
      ensures completedSequence == Max(old(completedSequence), old(worker).value.sequence)
      ensures projectRevision == old(projectRevision)
      ensures projectSavedRevision == if saved && active == old(worker).value.ticket.document
                                      then Max(old(projectSavedRevision), old(worker).value.appRevision) else old(projectSavedRevision)
      ensures Settled(old(documents), documents, old(worker).value.ticket, saved)
      ensures saved ==> Durable(sidecars, old(worker).value.key, old(worker).value.snapshot)
    {
      hide CleanMeansDurable, DistinctKeys, WorkerFits, OneWriter, Store, Durable;
      var w := worker.value;
      var ticket, sequence := w.ticket, w.sequence;
      saved := w.done.value;
      Completes(documents, sidecars, w, saved);
      FinishCurrent(started, finished, nextSequence, w);
      worker := None;
      finished := finished + [sequence];
      completedSequence := Max(completedSequence, sequence);
      var origin := if ticket.document in documents then Some(documents[ticket.document]) else None;
      if !saved {
        projectSaveState := Failed;
        if origin.Some? {
          documents := documents[ticket.document := origin.value.Rejected(ticket.document, ticket)];
        }
        return;
      }
      var acknowledged := origin.Some? && origin.value.Owns(ticket.document, ticket);
      if acknowledged {
        documents := documents[ticket.document := origin.value.Acknowledged(ticket)];
      }
      if acknowledged && active == ticket.document {
        projectSavedRevision := Max(projectSavedRevision, w.appRevision);
      }
      projectSaveState := if documents[active].IsDirty() then Dirty else Clean;
    }

    /** Without a writer the last state is the answer; an unfinished one is joined only when asked to. */
    method FinishProjectSave(wait: bool, outcome: bool) returns (ok: bool)
      requires Valid()
      modifies this
      ensures Valid() && active == old(active) && nextSequence == old(nextSequence) && started == old(started)
      ensures old(worker).None? ==> unchanged(this) && ok == (projectSaveState != Failed)
      ensures old(worker).Some? && old(worker).value.done.None? && !wait ==> unchanged(this) && ok
      ensures old(worker).Some? && (old(worker).value.done.Some? || wait) ==>
                var w := old(worker).value;
                && worker == None && finished == old(finished) + [w.sequence]
                && ok == (if w.done.Some? then w.done.value else outcome)
                && (projectSaveState == Failed <==> !ok)
                && Settled(old(documents), documents, w.ticket, ok)
                && (ok ==> Durable(sidecars, w.key, w.snapshot))
      ensures old(worker).None? || old(worker).value.done.Some? ==> sidecars == old(sidecars)
    {
      hide CleanMeansDurable, DistinctKeys, WorkerFits, OneWriter, Store, Durable, Settled;
      if worker.None? {
        return projectSaveState != Failed;
      }
      if worker.value.done.None? {
        if !wait {
          return true;
        }
        WorkerRuns(outcome);
      }
      ok := PublishCompletion();
    }

    /** Takes a snapshot of the active project and starts a writer for it, if there is anything to write. */
    method StartWriter(startable: bool) returns (ok: bool)
      requires Valid() && worker == None
      modifies this
      ensures Valid() && active == old(active) && sidecars == old(sidecars) && finished == old(finished)
      ensures SameWork(old(documents), documents)
      ensures ok == (startable || !old(documents)[active].Persistent() || !old(documents)[active].IsDirty())
      ensures projectSaveState == if !ok then Failed else if worker.Some? then Saving else Clean
      ensures !ok ==> documents[active].saveState == Failed
      ensures projectRevision == old(projectRevision)
      ensures ok && worker.None? ==> !documents[active].IsDirty() && started == old(started) && projectSavedRevision == projectRevision
      ensures worker.Some? <==> old(documents)[active].Persistent() && old(documents)[active].IsDirty() && startable
      ensures worker.Some? ==>
                && worker.value.ticket == TicketOf(active, documents[active]) && worker.value.key == documents[active].hash
                && worker.value.snapshot == documents[active].project && worker.value.done == None
                && started == old(started) + [worker.value.sequence]
    {
      hide CleanMeansDurable, DistinctKeys, WorkerFits, OneWriter, Store, Durable, SameWork;
      var document := documents[active];
      SavedWithin(documents, sidecars, active);
      SameAsBefore(documents);
      if !document.loaded || document.hash == 0 || document.persistence == Ephemeral || document.mapped {
        AcknowledgeTransient(documents, sidecars, active);
        MarkIsSameWork(documents, active, document.Acknowledged(TicketOf(active, document)));
        projectSavedRevision := projectRevision;
        documents := documents[active := document.Acknowledged(TicketOf(active, document))];
        projectSaveState := Clean;
        return true;
      }
      if !document.IsDirty() {
        projectSavedRevision := projectRevision;
        projectSaveState := Clean;
        return true;
      }
      ok := Launch(startable);
    }

    /** Stamps the dirty active project and hands a snapshot of it to a new writer. */
    method Launch(startable: bool) returns (ok: bool)
      requires Valid() && worker == None && documents[active].Persistent() && documents[active].IsDirty()
      modifies this
      ensures Valid() && active == old(active) && sidecars == old(sidecars) && finished == old(finished)
      ensures SameWork(old(documents), documents) && ok == startable
      ensures projectSaveState == (if ok then Saving else Failed) && projectRevision == old(projectRevision)
      ensures !ok ==> documents[active].saveState == Failed
      ensures nextSequence == old(nextSequence) + 1 && (worker.Some? ==> worker.value.appRevision == projectRevision)
      ensures documents[active].project.stamp == documents[active].stamp
      ensures worker.Some? <==> ok
      ensures worker.Some? ==>
                && worker.value.ticket == TicketOf(active, documents[active]) && worker.value.key == documents[active].hash
                && worker.value.snapshot == documents[active].project && worker.value.done == None
                && started == old(started) + [worker.value.sequence]
    {
      hide CleanMeansDurable, DistinctKeys, WorkerFits, OneWriter, Store, Durable, SameWork;
      var document := documents[active];
      var next := Worker(TicketOf(active, document), projectRevision, nextSequence, document.hash, document.Stamped().project, None);
      SavedWithin(documents, sidecars, active);
      MarkIsSameWork(documents, active, document.Stamped());
      MarkIsSameWork(documents, active, document.Stamped().Rejected(active, next.ticket));
      SnapshotFits(documents, sidecars, active, next);
      StartNext(started, finished, nextSequence, next);
      nextSequence := nextSequence + 1;
      if !startable {
        projectSaveState := Failed;
        documents := documents[active := document.Stamped().Rejected(active, next.ticket)];
        SkipSequence(started, finished, nextSequence - 1);
        return false;
      }
      documents := documents[active := document.Stamped()];
      projectSaveState := Saving;
      worker := Some(next);
      started := started + [next.sequence];
      ok := true;
    }

    /** A second writer is never started: the same document keeps its writer, another one's is joined first. */
    method BeginProjectSave(startable: bool, outcome: bool) returns (ok: bool)
      requires Valid()
      modifies this
      ensures Valid() && active == old(active)
      ensures old(worker).Some? && old(worker).value.ticket.document == active ==> unchanged(this) && ok
      ensures old(worker).Some? && old(worker).value.ticket.document != active ==>
                old(worker).value.sequence in finished
      ensures SameWork(old(documents), documents)
      ensures !ok ==> worker == None && projectSaveState == Failed
      ensures old(worker).None? ==> ok == (startable || !old(documents)[active].Persistent() || !old(documents)[active].IsDirty())
      ensures ok && worker.None? ==> projectSaveState != Failed && !documents[active].IsDirty()
      ensures ok && (old(worker).None? || old(worker).value.ticket.document != active) && worker.Some? ==>
                worker.value.ticket == TicketOf(active, documents[active]) && worker.value.done == None
      ensures old(worker).None? && startable && old(documents)[active].Persistent() && old(documents)[active].IsDirty() ==>
                worker.Some? && worker.value.ticket.document == active && worker.value.done == None
                && worker.value.key == documents[active].hash && worker.value.snapshot == documents[active].project
    {
      hide CleanMeansDurable, DistinctKeys, OneWriter, Store, Durable, Settled, SameWork;
      if worker.Some? {
        var ticket := worker.value.ticket;
        if ticket.document == active && ticket.generation == documents[active].generation {
          SameAsBefore(documents);
          return true;
        }
        ghost var before := documents;
        var joined := FinishProjectSave(true, outcome);
        SettledIsSameWork(before, documents, ticket, joined);
        if !joined {
          return false;
        }
        ghost var between := documents;
        ok := StartWriter(startable);
        SameWorkChains(before, between, documents);
        return;
      }
      ok := StartWriter(startable);
    }

    /**
      Saves the active project and waits. True means a reload would find exactly this project; it never
      means that by losing an edit.
     */
    method SaveProject(startable: bool, pending: bool, outcome: bool) returns (ok: bool)
      requires Valid()
      modifies this
      ensures Valid() && active == old(active) && worker == None
      ensures SameWork(old(documents), documents)
      ensures ok ==> !documents[active].IsDirty()
      ensures ok && documents[active].Persistent() ==> Durable(sidecars, documents[active].hash, documents[active].project)
      ensures ok <==> projectSaveState != Failed
      ensures Willing(startable, pending, outcome, old(worker)) ==> ok
    {
      hide CleanMeansDurable, DistinctKeys, WorkerFits, OneWriter, Store, Durable, SameWork;
      ghost var before := documents;
      SameAsBefore(before);
      if worker.Some? {
        ghost var first := worker.value.ticket;
        var joined := FinishProjectSave(true, pending);
        SettledIsSameWork(before, documents, first, joined);
        if !joined {
          return false;
        }
      }
      ghost var between := documents;
      var began := BeginProjectSave(startable, false);
      SameWorkChains(before, between, documents);
      if !began {
        return false;
      }
      between := documents;
      ghost var second := worker;
      ok := FinishProjectSave(true, outcome);
      if second.Some? {
        SettledIsSameWork(between, documents, second.value.ticket, ok);
        SameWorkChains(before, between, documents);
      }
      if ok && documents[active].Persistent() {
        CompletedIsDurable(documents, sidecars, active);
      }
    }

    // -------------------------------------------------------------------------
    // Transitions.

    /** Only the active document has a writer: every transition joins it first. */
    ghost predicate WriterIsActive()
      reads this
    {
      worker.Some? ==> worker.value.ticket.document == active
    }

    /** A document's own synchronous save, behind the writer of no other state of that document. */
    method Flush(id: nat, outcome: bool) returns (ok: bool)
      requires Valid() && id in documents
      requires worker.Some? ==> worker.value.ticket.document != id
      modifies this`documents, this`sidecars
      ensures Valid() && SameWork(old(documents), documents)
      ensures forall i :: i in documents && i != id ==> documents[i] == old(documents)[i]
      ensures ok <==> !documents[id].IsDirty()
      ensures ok && documents[id].Persistent() ==> Durable(sidecars, documents[id].hash, documents[id].project)
      ensures ok <==> Flushes(old(documents)[id], outcome)
      ensures documents[id].saveState == if ok then Clean else Failed
      ensures ok && old(documents)[id].IsDirty() && old(documents)[id].persistence != Ephemeral ==>
                documents[id].project.stamp == documents[id].stamp
    {
      hide CleanMeansDurable, DistinctKeys, WorkerFits, OneWriter, Store, Durable, SameWork;
      var d := documents[id];
      if d.persistence == Ephemeral || !d.IsDirty() {
        FlushKeeps(documents, sidecars, id, d.(savedRevision := d.revision, saveState := Clean), worker);
        documents := documents[id := d.(savedRevision := d.revision, saveState := Clean)];
        ok := true;
      } else if !outcome || d.hash == 0 {
        FlushKeeps(documents, sidecars, id, d.(saveState := Failed), worker);
        documents := documents[id := d.(saveState := Failed)];
        ok := false;
      } else {
        var saved := d.Stamped().(savedRevision := d.revision, saveState := Clean);
        FlushStores(documents, sidecars, id, saved, worker);
        sidecars := Store(sidecars, d.hash, saved.project);
        documents := documents[id := saved];
        ok := true;
      }
      if ok && documents[id].Persistent() {
        CompletedIsDurable(documents, sidecars, id);
      }
    }

    /** What the window shows of the save state is that of the active document. */
    ghost predicate Mirrored()
      reads this
    {
      && active in documents
      && projectRevision == documents[active].revision && projectSavedRevision == documents[active].savedRevision
      && projectSaveState == documents[active].saveState
    }

    method ResetMirror()
      requires Valid()
      modifies this`projectRevision, this`projectSavedRevision, this`projectSaveState
      ensures Valid() && Mirrored()
    {
      projectRevision, projectSavedRevision := documents[active].revision, documents[active].savedRevision;
      projectSaveState := documents[active].saveState;
    }

    /** Saves the active document and leaves no writer behind, or the transition does not happen. */
    method PrepareAndFlush(startable: bool, pending: bool, outcome: bool) returns (ok: bool)
      requires Valid()
      modifies this
      ensures Valid() && active == old(active) && worker == None && SameWork(old(documents), documents)
      ensures ok ==> !documents[active].IsDirty()
      ensures ok && documents[active].Persistent() ==> Durable(sidecars, documents[active].hash, documents[active].project)
      ensures Willing(startable, pending, outcome, old(worker)) ==> ok
    {
      hide CleanMeansDurable, DistinctKeys, WorkerFits, OneWriter, Store, Durable, SameWork;
      ghost var before := documents;
      ok := SaveProject(startable, pending, outcome);
      if ok {
        ghost var between := documents;
        ok := Flush(active, outcome);
        SameWorkChains(before, between, documents);
      }
    }

    /** The document that is left behind is durable before another one becomes active. */
    method Activate(target: nat, startable: bool, pending: bool, outcome: bool) returns (ok: bool)
      requires Valid() && WriterIsActive()
      modifies this
      ensures Valid() && WriterIsActive() && SameWork(old(documents), documents)
      ensures active == if ok then target else old(active)
      ensures old(active) in documents
      ensures ok ==> target in old(documents)
      ensures ok && target != old(active) ==> Mirrored()
      ensures target in old(documents) && (target == old(active) || Willing(startable, pending, outcome, old(worker))) ==> ok
      ensures ok && target != old(active) ==>
                var d := documents[old(active)];
                !d.IsDirty() && (d.Persistent() ==> Durable(sidecars, d.hash, d.project))
    {
      hide CleanMeansDurable, DistinctKeys, WorkerFits, OneWriter, Store, Durable, SameWork;
      SameAsBefore(documents);
      SameWorkKeys(documents, documents);
      if target !in documents {
        return false;
      }
      if target == active {
        return true;
      }
      ghost var before := documents;
      ok := PrepareAndFlush(startable, pending, outcome);
      SameWorkKeys(before, documents);
      if ok {
        active := target;
        ResetMirror();
      }
    }

    /** Takes a flushed document out, unless a draft in it is neither saved nor discarded. */
    method Remove(id: nat, next: nat, outcome: bool) returns (ok: bool)
      requires Valid() && id in documents && next in documents && next != id
      requires worker.Some? ==> worker.value.ticket.document == next == active
      modifies this
      ensures Valid() && worker == old(worker)
      ensures ok ==> documents == old(documents) - {id} && active == next && Reloads(sidecars, old(documents)[id])
      ensures ok ==> !old(documents)[id].draftPending
      ensures !ok ==> active == old(active) && SameWork(old(documents), documents)
      ensures !ok ==> forall i :: i in documents && i != id ==> i in old(documents) && documents[i] == old(documents)[i]
      ensures ok <==> Flushes(old(documents)[id], outcome) && !old(documents)[id].draftPending
      ensures ok ==> Mirrored()
    {
      hide CleanMeansDurable, DistinctKeys, WorkerFits, OneWriter, Store, SameWork;
      ghost var before := documents;
      ok := Flush(id, outcome);
      SameDocument(before, documents, id);
      SameWorkKeys(before, documents);
      if !ok {
        return;
      }
      if documents[id].draftPending {
        return false;
      }
      RemoveKeeps(documents, sidecars, id);
      RemoveFits(documents, sidecars, id, worker);
      assert documents - {id} == before - {id};
      documents := documents - {id};
      active := next;
      ResetMirror();
    }

    /** Publishes a document nobody else shares a sidecar with, and makes it active. */
    method Install(id: nat, d: Document)
      requires Valid() && worker == None && id !in documents
      requires (d.hash != 0 ==> d.loaded) && d.savedRevision <= d.revision
      requires d.persistence == RequiresInitialSave ==> d.IsDirty()
      requires d.persistence == DurableSnapshot && d.hash != 0 ==> Durable(sidecars, d.hash, d.project)
      requires d.Keyed() ==> forall i :: i in documents && documents[i].loaded ==> documents[i].hash != d.hash
      modifies this
      ensures Valid() && Mirrored() && worker == None && active == id && sidecars == old(sidecars)
      ensures documents == old(documents)[id := d] && documents - {id} == old(documents)
    {
      hide CleanMeansDurable, DistinctKeys, WorkerFits, OneWriter, Store, Durable;
      InstallKeeps(documents, sidecars, id, d);
      documents := documents[id := d];
      active := id;
      ResetMirror();
    }

    /** Adds an empty document behind the active one's save, and makes it active. */
    method CreateScratch(id: nat, startable: bool, pending: bool, outcome: bool) returns (ok: bool)
      requires Valid() && id !in documents
      modifies this
      ensures Valid() && (ok ==> worker == None)
      ensures !ok ==> active == old(active) && SameWork(old(documents), documents) && (worker == None || worker == old(worker))
      ensures ok ==> active == id && id in documents && documents[id] == SCRATCH && old(active) in old(documents)
      ensures ok ==> SameWork(old(documents), documents - {id}) && !documents[old(active)].IsDirty()
      ensures ok ==> documents.Keys == old(documents).Keys + {id}
      ensures ok ==> |old(documents)| < 8 && Mirrored()
      ensures ok ==> !documents[id].loaded && documents[id].hash == 0 && !documents[id].IsDirty() && !documents[id].draftPending
                     && !documents[id].mapped && documents[id].revision == 0 && documents[id].saveState == Clean
                     && documents[id].project.content == ""
      ensures |old(documents)| < 8 && Willing(startable, pending, outcome, old(worker)) ==> ok
    {
      hide CleanMeansDurable, DistinctKeys, WorkerFits, OneWriter, Store, Durable, SameWork;
      SameAsBefore(documents);
      if |documents| >= MAX_DOCUMENTS {
        return false;
      }
      ghost var before := documents;
      ok := PrepareAndFlush(startable, pending, outcome);
      SameWorkKeys(before, documents);
      if ok {
        Install(id, SCRATCH);
      }
    }

    /** The last document is replaced by an empty one first; when it does not close, it is active again and alone. */
    method CloseLast(id: nat, scratch: nat, startable: bool, pending: bool, outcome: bool) returns (ok: bool)
      requires Valid() && WriterIsActive() && documents.Keys == {id} && active == id && scratch != id
      modifies this
      ensures Valid() && WriterIsActive()
      ensures ok ==> documents.Keys == {scratch} && active == scratch
      ensures ok ==> Reloads(sidecars, old(documents)[id]) && !old(documents)[id].draftPending
      ensures !ok ==> active == id && SameWork(old(documents), documents)
      ensures Willing(startable, pending, outcome, old(worker)) && !old(documents)[id].draftPending ==> ok
    {
      hide CleanMeansDurable, DistinctKeys, WorkerFits, OneWriter, Store, Durable, SameWork;
      ghost var before := documents;
      OneDocument(documents, id);
      ok := CreateScratch(scratch, startable, pending, outcome);
      if !ok {
        return;
      }
      ghost var between := documents;
      SameDocument(before, between - {scratch}, id);
      ok := Remove(id, scratch, outcome);
      if !ok {
        SameWorkKeys(between, documents);
        SameWorkChainsWithout(before, between, documents, scratch);
        active := id;
        var gone := Remove(scratch, id, true);
      }
    }

    /** The active document is saved, flushed and taken out; its successor is active. */
    method CloseActive(id: nat, successor: nat, startable: bool, pending: bool, outcome: bool) returns (ok: bool)
      requires Valid() && WriterIsActive() && id == active && successor in documents && successor != id
      modifies this
      ensures Valid() && WriterIsActive()
      ensures ok ==> SameWork(old(documents) - {id}, documents) && active == successor
      ensures ok ==> Reloads(sidecars, old(documents)[id]) && !old(documents)[id].draftPending
      ensures !ok ==> active == id && SameWork(old(documents), documents)
      ensures Willing(startable, pending, outcome, old(worker)) && !old(documents)[id].draftPending ==> ok
    {
      hide CleanMeansDurable, DistinctKeys, WorkerFits, OneWriter, Store, Durable, SameWork;
      ghost var before := documents;
      ok := PrepareAndFlush(startable, pending, outcome);
      SameWorkKeys(before, documents);
      if !ok {
        return;
      }
      ghost var between := documents;
      SameDocument(before, between, id);
      SameWorkWithout(before, between, id);
      ok := Remove(id, successor, outcome);
      if !ok {
        SameWorkChains(before, between, documents);
      }
    }

    /** What was in a document when it closed is what a reload finds; a pending draft keeps it open. */
    method Close(id: nat, successor: nat, scratch: nat, startable: bool, pending: bool, outcome: bool) returns (ok: bool)
      requires Valid() && WriterIsActive() && scratch !in documents
      requires |documents| > 1 && id == active ==> successor in documents && successor != id
      modifies this
      ensures Valid() && WriterIsActive()
      ensures ok ==> id in old(documents) && Reloads(sidecars, old(documents)[id]) && !old(documents)[id].draftPending
      ensures ok && |old(documents)| == 1 ==> documents.Keys == {scratch} && active == scratch
      ensures ok && |old(documents)| > 1 ==>
                SameWork(old(documents) - {id}, documents) && active == if id == old(active) then successor else old(active)
      ensures !ok ==> active == old(active) && SameWork(old(documents), documents)
      ensures ok ==> id !in documents
      ensures id in old(documents) && !old(documents)[id].draftPending &&
              (if id == old(active) then Willing(startable, pending, outcome, old(worker)) else Flushes(old(documents)[id], outcome))
              ==> ok
    {
      hide CleanMeansDurable, DistinctKeys, WorkerFits, OneWriter, Store, Durable, SameWork, Reloads;
      SameAsBefore(documents);
      SameAsBefore(documents - {id});
      if id !in documents {
        return false;
      }
      ghost var before := documents;
      if |documents| == 1 {
        OnlyOne(documents, id, active);
        ok := CloseLast(id, scratch, startable, pending, outcome);
      } else if id == active {
        ok := CloseActive(id, successor, startable, pending, outcome);
        if ok {
          SameWorkKeys(before - {id}, documents);
        }
      } else {
        ok := Remove(id, active, outcome);
      }
    }

    /**
      Adds an image whose content is not open. A restored project is what the store holds, which nobody writes
      while no open document has that content.
     */
    method OpenNew(id: nat, d: Document, decodes: bool, startable: bool, pending: bool, outcome: bool) returns (ok: bool)
      requires Valid() && WriterIsActive() && id !in documents
      requires d.loaded && d.savedRevision == 0 && d.revision == if d.persistence == RequiresInitialSave then 1 else 0
      requires d.Keyed() ==> forall i :: i in documents && documents[i].loaded ==> documents[i].hash != d.hash
      modifies this
      ensures Valid() && WriterIsActive()
      ensures !ok ==> active == old(active) && SameWork(old(documents), documents)
      ensures ok ==> |old(documents)| < 8 && decodes && active == id
      ensures |old(documents)| < 8 && decodes && Willing(startable, pending, outcome, old(worker)) ==> ok
      ensures ok ==> id in documents && SameWork(old(documents), documents - {id}) && documents[id] == Restored(d, sidecars)
    {
      hide CleanMeansDurable, DistinctKeys, WorkerFits, OneWriter, Store, Durable, SameWork;
      ghost var before := documents;
      SameAsBefore(documents);
      if |documents| >= MAX_DOCUMENTS || !decodes {
        return false;
      }
      ok := PrepareAndFlush(startable, pending, outcome);
      SameWorkKeys(before, documents);
      if ok {
        var installed := Restored(d, sidecars);
        RestoredIs(d, sidecars);
        SameHashes(before, documents);
        Install(id, installed);
      }
    }

    /** Opens an image: a file whose content is already open is activated instead. */
    method Open(id: nat, d: Document, reuse: bool, decodes: bool, startable: bool, pending: bool, outcome: bool) returns (ok: bool)
      requires Valid() && WriterIsActive() && id !in documents
      requires d.savedRevision == 0 && d.revision == if d.persistence == RequiresInitialSave then 1 else 0
      requires !reuse ==> d.persistence == Ephemeral
      modifies this
      ensures Valid() && WriterIsActive()
      ensures ok ==> d.loaded
      ensures ok ==> active in documents && HasContent(documents[active], d.hash)
      ensures ok && active == id ==>
                && documents[id] == d.(project := documents[id].project)
                && (d.persistence != DurableSnapshot || d.hash == 0 ==> documents[id] == d)
                && (d.persistence == DurableSnapshot && d.hash != 0 ==>
                      if d.hash in sidecars then documents[id].project == sidecars[d.hash]
                      else documents[id].project == d.project.(content := ""))
      ensures (d.loaded && Willing(startable, pending, outcome, old(worker)) &&
               ((reuse && OpenAlready(old(documents), d.hash)) || (|old(documents)| < 8 && decodes))) ==> ok
      ensures !ok ==> active == old(active) && SameWork(old(documents), documents)
      ensures ok && active == id ==>
                id in documents && SameWork(old(documents), documents - {id}) && documents[id] == Restored(d, sidecars)
      ensures ok && active == id && reuse ==>
                forall i :: i in old(documents) && old(documents)[i].loaded ==> old(documents)[i].hash != d.hash
      ensures ok && active != id ==>
                SameWork(old(documents), documents) && documents[active].loaded && documents[active].hash == d.hash
    {
      hide CleanMeansDurable, DistinctKeys, WorkerFits, OneWriter, Store, Durable, SameWork, Restored;
      ghost var before := documents;
      SameAsBefore(documents);
      if !d.loaded {
        return false;
      }
      if reuse {
        if existing :| existing in documents && HasContent(documents[existing], d.hash) {
          ok := Activate(existing, startable, pending, outcome);
          SameWorkKeys(before, documents);
          SameDocument(before, documents, existing);
          return;
        }
      }
      ok := OpenNew(id, d, decodes, startable, pending, outcome);
      RestoredIs(d, sidecars);
    }
  }

  // ---------------------------------------------------------------------------
  // Whole runs.

  datatype Step =
    | EditStep(content: string)
    | WorkerStep(outcome: bool)
    | PollStep
    | BeginStep(startable: bool, outcome: bool)
    | SaveStep(startable: bool, pending: bool, outcome: bool)
    | ActivateStep(target: nat, startable: bool, pending: bool, outcome: bool)
    | CloseStep(id: nat, successor: nat, scratch: nat, startable: bool, pending: bool, outcome: bool)
    | OpenStep(id: nat, document: Document, reuse: bool, decodes: bool, startable: bool, pending: bool, outcome: bool)

  /** What can be seen of the controller between two steps. */
  datatype Moment = Moment(documents: Documents, active: nat, worker: Option<Worker>, sidecars: Sidecars, saveState: SaveState)

  ghost function Now(app: AppContext): Moment
    reads app
  {
    Moment(app.documents, app.active, app.worker, app.sidecars, app.projectSaveState)
  }

  /** An edit reaches only the active project, and dirties it when it is persistent. */
  ghost predicate Edited(before: Moment, content: string, after: Moment) {
    && before.active in before.documents && after.active == before.active
    && after.documents.Keys == before.documents.Keys
    && (forall i :: i in before.documents && i != before.active ==> after.documents[i] == before.documents[i])
    && var x, y := before.documents[before.active], after.documents[before.active];
    && y.project == x.project.(content := content) && y.savedRevision == x.savedRevision
    && (y.Persistent() ==> y.IsDirty() && y.revision == x.revision + 1)
    && after.worker == before.worker && after.sidecars == before.sidecars
  }

  /** The writer runs to its end, once. */
  ghost predicate Wrote(before: Moment, outcome: bool, after: Moment) {
    && after.documents == before.documents && after.active == before.active && after.saveState == before.saveState
    && if before.worker.Some? && before.worker.value.done.None? then
         var w := before.worker.value;
         && after.worker == Some(w.(done := Some(outcome)))
         && after.sidecars == if outcome then Store(before.sidecars, w.key, w.snapshot) else before.sidecars
       else after == before
  }

  /** A finished writer is published to its document; an unfinished one is left alone. */
  ghost predicate Polled(before: Moment, after: Moment) {
    if before.worker.Some? && before.worker.value.done.Some? then
      && after.worker == None && after.sidecars == before.sidecars && after.active == before.active
      && Settled(before.documents, after.documents, before.worker.value.ticket, before.worker.value.done.value)
    else after == before
  }

  /** The active document is clean and its project is in the store. */
  ghost predicate ActiveSaved(m: Moment) {
    m.active in m.documents && !m.documents[m.active].IsDirty() &&
    (m.documents[m.active].Persistent() ==> Durable(m.sidecars, m.documents[m.active].hash, m.documents[m.active].project))
  }

  /** The document is open without a pending draft, and what closing it has to save is saved. */
  ghost predicate Closes(before: Moment, id: nat, successor: nat, scratch: nat, startable: bool, pending: bool, outcome: bool) {
    && id in before.documents && !before.documents[id].draftPending && scratch !in before.documents
    && (|before.documents| > 1 && id == before.active ==> successor in before.documents && successor != id)
    && if id == before.active then Willing(startable, pending, outcome, before.worker)
       else Flushes(before.documents[id], outcome)
  }

  /** A fresh loaded image that is open already, or that decodes while fewer than eight documents are open. */
  ghost predicate Opens(before: Moment, id: nat, d: Document, reuse: bool, decodes: bool, startable: bool, pending: bool,
                        outcome: bool)
  {
    && id !in before.documents && d.loaded && d.savedRevision == 0 && (!reuse ==> d.persistence == Ephemeral)
    && d.revision == (if d.persistence == RequiresInitialSave then 1 else 0)
    && Willing(startable, pending, outcome, before.worker)
    && ((reuse && OpenAlready(before.documents, d.hash)) || (|before.documents| < 8 && decodes))
  }

  /** One step of a run. */
  ghost predicate Related(before: Moment, step: Step, after: Moment) {
    match step
    case EditStep(content) => Edited(before, content, after)
    case WorkerStep(outcome) => Wrote(before, outcome, after)
    case PollStep => Polled(before, after)
    case BeginStep(startable, _) =>
      && SameWork(before.documents, after.documents) && after.active == before.active
      && (before.worker.Some? && before.worker.value.ticket.document == before.active ==> after == before)
      && (before.worker.None? && startable && before.active in before.documents
          && before.documents[before.active].Persistent() && before.documents[before.active].IsDirty() ==>
            after.worker.Some? && after.worker.value.ticket.document == before.active && after.worker.value.done.None?
            && after.active in after.documents && after.worker.value.key == after.documents[after.active].hash
            && after.worker.value.snapshot == after.documents[after.active].project)
    case SaveStep(startable, pending, outcome) =>
      && SameWork(before.documents, after.documents) && after.active == before.active && after.worker == None
      && (after.saveState != Failed ==> ActiveSaved(after))
      && (Willing(startable, pending, outcome, before.worker) ==> after.saveState != Failed)
    case ActivateStep(target, startable, pending, outcome) =>
      && (target in before.documents && Willing(startable, pending, outcome, before.worker) ==> after.active == target)
      && SameWork(before.documents, after.documents) && (after.active == before.active || after.active == target)
      && (after.active != before.active ==> ActiveSaved(after.(active := before.active)))
    case CloseStep(id, successor, scratch, startable, pending, outcome) =>
      Closed(before, id, successor, scratch, startable, pending, outcome, after)
    case OpenStep(id, d, reuse, decodes, startable, pending, outcome) =>
      Opened(before, id, d, reuse, decodes, startable, pending, outcome, after)
  }

  ghost predicate Closed(before: Moment, id: nat, successor: nat, scratch: nat, startable: bool, pending: bool, outcome: bool,
                         after: Moment)
  {
    && (Closes(before, id, successor, scratch, startable, pending, outcome) ==> id !in after.documents)
    && (|| (SameWork(before.documents, after.documents) && after.active == before.active)
        || (&& id in before.documents && Reloads(after.sidecars, before.documents[id]) && !before.documents[id].draftPending
            && if |before.documents| == 1 then after.documents.Keys == {scratch} && after.active == scratch
               else SameWork(before.documents - {id}, after.documents) &&
                    after.active == if id == before.active then successor else before.active))
  }

  ghost predicate Opened(before: Moment, id: nat, d: Document, reuse: bool, decodes: bool, startable: bool, pending: bool,
                         outcome: bool, after: Moment)
  {
    && (Opens(before, id, d, reuse, decodes, startable, pending, outcome) ==>
          after.active in after.documents && HasContent(after.documents[after.active], d.hash))
    && (|| (SameWork(before.documents, after.documents) &&
            (after.active == before.active || (after.active in after.documents && after.documents[after.active].hash == d.hash)))
        || (&& id !in before.documents && id in after.documents && after.active == id
            && SameWork(before.documents, after.documents - {id}) && after.documents[id] == Restored(d, after.sidecars)))
  }

  method TakeClose(app: AppContext, id: nat, successor: nat, scratch: nat, startable: bool, pending: bool, outcome: bool)
    requires app.Valid() && app.WriterIsActive()
    modifies app
    ensures app.Valid() && app.WriterIsActive()
    ensures Closed(old(Now(app)), id, successor, scratch, startable, pending, outcome, Now(app))
  {
    hide CleanMeansDurable, DistinctKeys, WorkerFits, OneWriter, SameWork, Reloads, Willing, Flushes;
    SameAsBefore(app.documents);
    if scratch !in app.documents && (|app.documents| > 1 && id == app.active ==> successor in app.documents && successor != id) {
      SomeDocument(app.documents, app.active);
      var _ := app.Close(id, successor, scratch, startable, pending, outcome);
    }
  }

  method TakeOpen(app: AppContext, id: nat, d: Document, reuse: bool, decodes: bool, startable: bool, pending: bool, outcome: bool)
    requires app.Valid() && app.WriterIsActive()
    modifies app
    ensures app.Valid() && app.WriterIsActive()
    ensures Opened(old(Now(app)), id, d, reuse, decodes, startable, pending, outcome, Now(app))
  {
    hide CleanMeansDurable, DistinctKeys, WorkerFits, OneWriter, SameWork, Restored, Willing, OpenAlready;
    SameAsBefore(app.documents);
    if id !in app.documents && d.savedRevision == 0 && (!reuse ==> d.persistence == Ephemeral) &&
       d.revision == (if d.persistence == RequiresInitialSave then 1 else 0) {
      var _ := app.Open(id, d, reuse, decodes, startable, pending, outcome);
    }
  }

  method Take(app: AppContext, step: Step)
    requires app.Valid() && app.WriterIsActive()
    modifies app
    ensures app.Valid() && app.WriterIsActive()
    ensures Related(old(Now(app)), step, Now(app))
  {
    hide CleanMeansDurable, DistinctKeys, WorkerFits, OneWriter, Store, Durable, SameWork, Settled, Closed, Opened, Willing;
    SameAsBefore(app.documents);
    match step
    case EditStep(content) => app.Edit(content);
    case WorkerStep(outcome) =>
      if app.worker.Some? && app.worker.value.done.None? { app.WorkerRuns(outcome); }
    case PollStep => var _ := app.FinishProjectSave(false, false);
    case BeginStep(startable, outcome) => var _ := app.BeginProjectSave(startable, outcome);
    case SaveStep(startable, pending, outcome) => var _ := app.SaveProject(startable, pending, outcome);
    case ActivateStep(target, startable, pending, outcome) => var _ := app.Activate(target, startable, pending, outcome);
    case CloseStep(id, successor, scratch, startable, pending, outcome) =>
      TakeClose(app, id, successor, scratch, startable, pending, outcome);
    case OpenStep(id, d, reuse, decodes, startable, pending, outcome) =>
      TakeOpen(app, id, d, reuse, decodes, startable, pending, outcome);
  }

  lemma SomeDocument(documents: Documents, active: nat)
    requires active in documents
    ensures |documents| > 0
  {
    assert |documents.Keys| == |documents|;
    assert documents.Keys != {};
  }

  /** Every moment of a run follows from the one before by its step, and its clean documents are in the store. */
  ghost predicate Traced(trace: seq<Moment>, steps: seq<Step>) {
    && |trace| == |steps| + 1
    && (forall i :: 0 <= i < |steps| ==> Related(trace[i], steps[i], trace[i + 1]))
    && (forall i :: 0 <= i < |trace| ==> CleanMeansDurable(trace[i].documents, trace[i].sidecars))
  }

  lemma TraceGrows(trace: seq<Moment>, steps: seq<Step>, step: Step, m: Moment)
    requires Traced(trace, steps) && Related(trace[|steps|], step, m) && CleanMeansDurable(m.documents, m.sidecars)
    ensures Traced(trace + [m], steps + [step])
  {
    hide Related, CleanMeansDurable;
  }

  /** In every run, at every moment, a document that shows no unsaved edits is in the store as it is. */
  method Run(scratch: Document, steps: seq<Step>) returns (app: AppContext, ghost trace: seq<Moment>)
    requires !scratch.loaded && scratch.hash == 0 && scratch.savedRevision <= scratch.revision
    ensures Traced(trace, steps) && trace[|steps|] == Now(app)
    ensures app.Valid() && app.WriterIsActive()
  {
    hide Related, CleanMeansDurable, DistinctKeys, WorkerFits, OneWriter, Traced;
    app := new AppContext(scratch);
    trace := [Now(app)];
    TraceStarts(trace[0]);
    for i := 0 to |steps|
      invariant app.Valid() && app.WriterIsActive() && fresh(app)
      invariant |trace| == i + 1 && Traced(trace, steps[..i]) && trace[i] == Now(app)
    {
      Take(app, steps[i]);
      TraceGrows(trace, steps[..i], steps[i], Now(app));
      assert steps[..i + 1] == steps[..i] + [steps[i]];
      trace := trace + [Now(app)];
    }
    assert steps[..|steps|] == steps;
  }

  lemma TraceStarts(m: Moment)
    requires CleanMeansDurable(m.documents, m.sidecars)
    ensures Traced([m], [])
  {
  }

  /** The project a durable snapshot is opened with. */
  function Restored(d: Document, sidecars: Sidecars): Document {
    if d.persistence != DurableSnapshot || d.hash == 0 then d
    else if d.hash in sidecars then d.(project := sidecars[d.hash])
    else d.(project := d.project.(content := ""))
  }

  lemma RestoredIs(d: Document, sidecars: Sidecars)
    ensures var r := Restored(d, sidecars);
            && r == d.(project := r.project)
            && (d.persistence == DurableSnapshot && d.hash != 0 ==> Durable(sidecars, d.hash, r.project))
            && (d.persistence != DurableSnapshot || d.hash == 0 ==> r == d)
            && (d.persistence == DurableSnapshot && d.hash != 0 ==>
                  if d.hash in sidecars then r.project == sidecars[d.hash] else r.project == d.project.(content := ""))
  {
  }

  lemma InstallKeeps(documents: Documents, sidecars: Sidecars, id: nat, d: Document)
    requires CleanMeansDurable(documents, sidecars) && DistinctKeys(documents) && id !in documents
    requires (d.hash != 0 ==> d.loaded) && d.savedRevision <= d.revision
    requires d.persistence == RequiresInitialSave ==> d.IsDirty()
    requires d.persistence == DurableSnapshot && d.hash != 0 ==> Durable(sidecars, d.hash, d.project)
    requires d.Keyed() ==> forall i :: i in documents && documents[i].loaded ==> documents[i].hash != d.hash
    ensures CleanMeansDurable(documents[id := d], sidecars) && DistinctKeys(documents[id := d])
  {
    ReplaceKeeps(documents, sidecars, id, d);
  }

  lemma FlushKeeps(documents: Documents, sidecars: Sidecars, id: nat, d: Document, worker: Option<Worker>)
    requires CleanMeansDurable(documents, sidecars) && DistinctKeys(documents) && id in documents
    requires worker.Some? ==> WorkerFits(documents, sidecars, worker.value) && worker.value.ticket.document != id
    requires d == documents[id].(savedRevision := d.savedRevision, saveState := d.saveState)
    requires d.savedRevision == documents[id].savedRevision || (d.persistence == Ephemeral && d.savedRevision == d.revision)
    ensures SameWork(documents, documents[id := d])
    ensures CleanMeansDurable(documents[id := d], sidecars) && DistinctKeys(documents[id := d])
    ensures worker.Some? ==> WorkerFits(documents[id := d], sidecars, worker.value)
  {
    ReplaceKeeps(documents, sidecars, id, d);
  }

  lemma FlushStores(documents: Documents, sidecars: Sidecars, id: nat, d: Document, worker: Option<Worker>)
    requires CleanMeansDurable(documents, sidecars) && DistinctKeys(documents) && id in documents
    requires worker.Some? ==> WorkerFits(documents, sidecars, worker.value) && worker.value.ticket.document != id
    requires d == documents[id].Stamped().(savedRevision := d.revision, saveState := Clean)
    requires documents[id].Keyed() && documents[id].IsDirty()
    ensures SameWork(documents, documents[id := d])
    ensures var after := Store(sidecars, d.hash, d.project);
            && CleanMeansDurable(documents[id := d], after) && DistinctKeys(documents[id := d])
            && (worker.Some? ==> WorkerFits(documents[id := d], after, worker.value))
  {
    var after := Store(sidecars, d.hash, d.project);
    StoreKeepsOthers(documents, sidecars, id, d.project);
    StoreMakesDurable(documents, sidecars, d.hash, d.project);
    ReplaceKeeps(documents, after, id, d);
  }

  lemma RemoveKeeps(documents: Documents, sidecars: Sidecars, id: nat)
    requires CleanMeansDurable(documents, sidecars) && DistinctKeys(documents)
    ensures CleanMeansDurable(documents - {id}, sidecars) && DistinctKeys(documents - {id})
  {
  }

  lemma SameWorkKeys(before: Documents, after: Documents)
    requires SameWork(before, after)
    ensures before.Keys == after.Keys
  {
  }

  lemma SameAsBefore(documents: Documents)
    ensures SameWork(documents, documents)
  {
  }

  lemma SameWorkChains(a: Documents, b: Documents, c: Documents)
    requires SameWork(a, b) && SameWork(b, c)
    ensures SameWork(a, c)
  {
  }

  lemma SkipSequence(started: seq<nat>, finished: seq<nat>, next: nat)
    requires OneWriter(started, finished, None, next)
    ensures OneWriter(started, finished, None, next + 1)
  {
  }
}
