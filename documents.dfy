/**
 * The document actions of api/views.py (`DocumentViewSet`): create, update
 * and destroy, which keep the stored records and the files on disk in
 * step, and the question action, which looks the document up for its owner
 * and hands it to the question-answering model.
 *
 * The database is a map from document ids to records; the media directory
 * is the set of paths that exist on disk. Each method also appends what it
 * did to `events`, so that the order of saving, deleting and removing files
 * can be stated.
 */
module Documents {
  import opened Wrappers
  import opened Text
  import opened Extraction
  import opened Answering

  type UserId = nat
  type DocId = nat
  type Path = string

  /** A stored `Document`: its owner, title, stored file (if any) and extracted text. */
  datatype Document = Document(owner: UserId, title: string, file: Option<Path>, extractedText: Option<string>)

  /** An uploaded file and the path the storage gives it once it is saved. */
  datatype Upload = Upload(content: UploadedFile, storedAt: Path)

  /** What an update says about `file`: nothing, `null`, or a new upload. */
  datatype FileChange = NoFileKey | FileCleared | NewFile(upload: Upload)

  datatype Event =
    | FileStored(path: Path)
    | RecordSaved(id: DocId)
    | RecordDeleted(id: DocId)
    | FileRemoved(path: Path)
    | FileRemovalFailed(path: Path)

  /** The text the first save of a document stores. */
  function CreatedText(upload: Option<Upload>, lib: Platform): string {
    if upload.Some? then Extracted(upload.value.content, lib) else ""
  }

  /** `extracted_text_to_save`: the old text, the new file's text, or "" when the file is cleared. */
  function UpdatedText(oldText: Option<string>, change: FileChange, lib: Platform): Option<string> {
    match change
    case NoFileKey => oldText
    case FileCleared => Some("")
    case NewFile(u) => Some(Extracted(u.content, lib))
  }

  /** The record's file after the save. */
  function UpdatedFile(oldFile: Option<Path>, change: FileChange): Option<Path> {
    match change
    case NoFileKey => oldFile
    case FileCleared => None
    case NewFile(u) => Some(u.storedAt)
  }

  /**
   * The test after an update's save, as written: a `file` key was sent (or
   * the file is now empty while there was an old one), there was an old
   * file, and the new file is not at the old path.
   */
  predicate RemovesOldFile(oldFile: Option<Path>, change: FileChange, newFile: Option<Path>) {
    && (change != NoFileKey || (newFile.None? && oldFile.Some?))
    && oldFile.Some?
    && !(newFile.Some? && newFile.value == oldFile.value)
  }

  /**
   * The old file is up for removal exactly when there was one and the
   * update cleared the file or stored the new one at a different path.
   */
  lemma RemovalRule(oldFile: Option<Path>, change: FileChange)
    ensures RemovesOldFile(oldFile, change, UpdatedFile(oldFile, change)) <==>
      oldFile.Some? && (change == FileCleared || (change.NewFile? && change.upload.storedAt != oldFile.value))
  {
  }

  /** The text rule of an update, stated case by case. */
  lemma UpdatedTextRule(oldText: Option<string>, change: FileChange, lib: Platform)
    ensures change == NoFileKey ==> UpdatedText(oldText, change, lib) == oldText
    ensures change == FileCleared ==> UpdatedText(oldText, change, lib) == Some("")
    ensures change.NewFile? ==>
      var t := UpdatedText(oldText, change, lib);
      t.Some? && t.value != "" && IsStripped(t.value) && t.value == Extracted(change.upload.content, lib)
  {
  }

  /**
   * With the corrected suitability test, a record whose text came from an
   * upload that only produced a diagnostic is never sent to the AI service,
   * whatever the question.
   */
  lemma DiagnosticNeverSent(
    f: UploadedFile, lib: Platform, id: nat, q: RequestValue,
    env: map<string, string>, ai: AiRequest -> AiCall)
    requires IsDiagnostic(f, lib)
    ensures AnswerQuestion(Corrected, Some(Extracted(f, lib)), id, q, env, ai).sent.None?
  {
    DiagnosticsRefused(f, lib);
  }

  class DocumentViewSet {
    /** The foreign functions the extractor relies on. */
    const lib: Platform
    var records: map<DocId, Document>
    var disk: set<Path>
    var nextId: DocId
    var events: seq<Event>

    /** Every stored id was handed out before, so a new id is fresh. */
    predicate Valid()
      reads this
    {
      forall id :: id in records ==> id < nextId
    }

    constructor(lib: Platform)
      ensures Valid()
      ensures this.lib == lib && records == map[] && disk == {} && nextId == 0 && events == []
    {
      this.lib := lib;
      records := map[];
      disk := {};
      nextId := 0;
      events := [];
    }

    /**
     * `perform_create`: extract the upload's text (or store "" without an
     * upload), store the file, save the record for the requesting user.
     */
    method PerformCreate(user: UserId, title: string, upload: Option<Upload>) returns (id: DocId)
      requires Valid()
      modifies this
      ensures Valid()
      ensures id == old(nextId) && id !in old(records) && nextId == old(nextId) + 1
      ensures records == old(records)[id := Document(user, title,
                           if upload.Some? then Some(upload.value.storedAt) else None,
                           Some(CreatedText(upload, lib)))]
      ensures disk == old(disk) + (if upload.Some? then {upload.value.storedAt} else {})
      ensures events == old(events) + (if upload.Some? then [FileStored(upload.value.storedAt)] else [])
                        + [RecordSaved(id)]
    {
      var text := "";
      var file: Option<Path> := None;
      if upload.Some? {
        text := ExtractTextFromFile(upload.value.content, lib);
        file := Some(upload.value.storedAt);
        disk := disk + {upload.value.storedAt};
        events := events + [FileStored(upload.value.storedAt)];
      }
      id := nextId;
      nextId := nextId + 1;
      records := records[id := Document(user, title, file, Some(text))];
      events := events + [RecordSaved(id)];
    }

    /**
     * `if os.path.isfile(path): try: os.remove(path) except OSError: ...`:
     * a file that is on disk is removed, unless the removal fails, which is
     * logged and changes nothing; the records are never touched.
     */
    method RemoveIfOnDisk(path: Path, removalSucceeds: bool)
      modifies this
      ensures records == old(records) && nextId == old(nextId)
      ensures disk == if path in old(disk) && removalSucceeds then old(disk) - {path} else old(disk)
      ensures events == old(events) + (if path !in old(disk) then []
                                       else if removalSucceeds then [FileRemoved(path)]
                                       else [FileRemovalFailed(path)])
    {
      if path in disk {
        if removalSucceeds {
          disk := disk - {path};
          events := events + [FileRemoved(path)];
        } else {
          events := events + [FileRemovalFailed(path)];
        }
      }
    }

    /**
     * The save step of `perform_update` (`serializer.save` with
     * `extracted_text_to_save`): the text is the old one, the new file's,
     * or "" when the file is cleared; a new upload is stored first.
     */
    method SaveUpdate(id: DocId, newTitle: Option<string>, change: FileChange)
      requires Valid() && id in records
      modifies this
      ensures Valid() && nextId == old(nextId)
      ensures var d := old(records)[id];
        records == old(records)[id := Document(d.owner,
                     if newTitle.Some? then newTitle.value else d.title,
                     UpdatedFile(d.file, change),
                     UpdatedText(d.extractedText, change, lib))]
      ensures disk == old(disk) + if change.NewFile? then {change.upload.storedAt} else {}
      ensures events == old(events)
                        + (if change.NewFile? then [FileStored(change.upload.storedAt)] else [])
                        + [RecordSaved(id)]
    {
      var document := records[id];
      var textToSave := document.extractedText;
      var newFile := document.file;
      if change.NewFile? {
        var t := ExtractTextFromFile(change.upload.content, lib);
        textToSave := Some(t);
        newFile := Some(change.upload.storedAt);
        disk := disk + {change.upload.storedAt};
        events := events + [FileStored(change.upload.storedAt)];
      } else if change == FileCleared {
        textToSave := Some("");
        newFile := None;
      }
      ghost var updated := Document(document.owner,
                                    if newTitle.Some? then newTitle.value else document.title,
                                    UpdatedFile(document.file, change),
                                    UpdatedText(document.extractedText, change, lib));
      var title := if newTitle.Some? then newTitle.value else document.title;
      assert Document(document.owner, title, newFile, textToSave) == updated;
      records := records[id := Document(document.owner, title, newFile, textToSave)];
      events := events + [RecordSaved(id)];
    }

    /**
     * `perform_update`: save, then, if the old file is up for removal and
     * is on disk, remove it; `removalSucceeds` says whether `os.remove`
     * raises. A failed removal is logged and changes nothing else.
     */
    method PerformUpdate(id: DocId, newTitle: Option<string>, change: FileChange, removalSucceeds: bool)
      requires Valid() && id in records
      modifies this
      ensures Valid() && nextId == old(nextId)
      ensures var d := old(records)[id];
        records == old(records)[id := Document(d.owner,
                     if newTitle.Some? then newTitle.value else d.title,
                     UpdatedFile(d.file, change),
                     UpdatedText(d.extractedText, change, lib))]
      ensures var d := old(records)[id];
        var stored := if change.NewFile? then {change.upload.storedAt} else {};
        var removing := RemovesOldFile(d.file, change, UpdatedFile(d.file, change))
                        && d.file.value in old(disk) + stored;
        && disk == (if removing && removalSucceeds then old(disk) + stored - {d.file.value}
                    else old(disk) + stored)
        && events == old(events)
                     + (if change.NewFile? then [FileStored(change.upload.storedAt)] else [])
                     + [RecordSaved(id)]
                     + (if !removing then []
                        else if removalSucceeds then [FileRemoved(d.file.value)]
                        else [FileRemovalFailed(d.file.value)])
      ensures var f := records[id].file;
        f.Some? && (f.value in old(disk) || change.NewFile?) ==> f.value in disk
    {
      var oldFilePath := records[id].file;
      var newFileUploaded := change != NoFileKey;
      SaveUpdate(id, newTitle, change);
      var newFile := records[id].file;
      ghost var saved := events;
      ghost var diskAfterSave := disk;

      if (newFileUploaded || (newFile.None? && oldFilePath.Some?)) && oldFilePath.Some? {
        var fileEffectivelyChanged := true;
        if newFile.Some? && newFile.value == oldFilePath.value {
          fileEffectivelyChanged := false;
        }
        if fileEffectivelyChanged {
          RemoveIfOnDisk(oldFilePath.value, removalSucceeds);
        }
      }
      assert !RemovesOldFile(oldFilePath, change, newFile) ==> events == saved && disk == diskAfterSave;
    }

    /**
     * `perform_destroy`: delete the record first, then remove its file if it
     * is on disk; a failed removal is logged and leaves the record deleted.
     */
    method PerformDestroy(id: DocId, removalSucceeds: bool)
      requires Valid() && id in records
      modifies this
      ensures Valid() && nextId == old(nextId)
      ensures records == old(records) - {id}
      ensures var p := old(records)[id].file;
        var removing := p.Some? && p.value in old(disk);
        && disk == (if removing && removalSucceeds then old(disk) - {p.value} else old(disk))
        && events == old(events) + [RecordDeleted(id)]
                     + (if !removing then []
                        else if removalSucceeds then [FileRemoved(p.value)]
                        else [FileRemovalFailed(p.value)])
    {
      var pathToDelete := records[id].file;
      records := records - {id};
      events := events + [RecordDeleted(id)];
      if pathToDelete.Some? {
        RemoveIfOnDisk(pathToDelete.value, removalSucceeds);
      }
    }

    /**
     * `ask_ai`: a document the user does not own, or that does not exist,
     * is not found; otherwise the question is answered from its stored
     * text with the suitability test `test`. The AI service is only ever
     * sent the text of one of the user's own documents, once that text
     * passed the test.
     */
    function AskAi(test: SuitabilityTest, user: UserId, id: DocId, question: RequestValue,
                   env: map<string, string>, ai: AiRequest -> AiCall): (o: Outcome)
      reads this
      ensures o.sent.Some? ==>
        && id in records && records[id].owner == user
        && !Refuses(test, records[id].extractedText) && question.Str?
        && o.sent.value.prompt == BuildPrompt(records[id].extractedText.value, question.s)
      ensures (id !in records || records[id].owner != user) ==>
        o == Outcome(Response(404, NotFoundBody), None)
      ensures id in records && records[id].owner == user ==>
        o == AnswerQuestion(test, records[id].extractedText, id, question, env, ai)
    {
      if id !in records || records[id].owner != user then
        Outcome(Response(404, NotFoundBody), None)
      else
        AnswerQuestion(test, records[id].extractedText, id, question, env, ai)
    }
  }
}
