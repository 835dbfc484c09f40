/**
 * The page's module-level state, `pdfId` and `comments`, as one object, with
 * the operations that change it: opening a document, loading the local copy,
 * merging the remote copy, saving to both tiers, adding and deleting.
 *
 * The two storage tiers are values passed in and returned: `localStorage` as
 * a map from key to the parsed list, the remote collection `pdfComments` as a
 * map from document id to the list in its `comments` field.
 */
module Store {
  import opened Wrappers
  import opened Geometry
  import opened Comments
  import opened Sync
  import Fingerprint

  type Tier = map<string, seq<StoredComment>>

  /** The local-storage key of a document's comments. */
  function LocalKey(id: string): (k: string)
    ensures |k| > |id| && k[|k| - |id|..] == id
  {
    "pdfComments_" + id
  }

  /** Different documents use different local-storage keys. */
  lemma LocalKeyInjective(a: string, b: string)
    ensures LocalKey(a) == LocalKey(b) <==> a == b
  {
    if LocalKey(a) == LocalKey(b) {
      assert a == LocalKey(a)[12..];
      assert b == LocalKey(b)[12..];
    }
  }

  /** The list `loadComments` starts from: the stored list with highlights reset, or empty. */
  function LoadFrom(local: Tier, id: string): (r: seq<Comment>)
    ensures LocalKey(id) !in local ==> r == []
    ensures LocalKey(id) in local ==> Serialize(r) == local[LocalKey(id)]
    ensures forall c :: c in r ==> c.highlight == None && c.pageWrapper == None
  {
    if LocalKey(id) in local then Deserialize(local[LocalKey(id)]) else []
  }

  /** Loading what was just saved gives the comments back, transient references dropped. */
  lemma SaveThenLoad(local: Tier, id: string, cs: seq<Comment>)
    ensures |LoadFrom(local[LocalKey(id) := Serialize(cs)], id)| == |cs|
    ensures forall i :: 0 <= i < |cs| ==> LoadFrom(local[LocalKey(id) := Serialize(cs)], id)[i] == Detached(cs[i])
  {
    DeserializeRestores(cs);
  }

  /** Saving one document leaves every other document's stored list as it was. */
  lemma SaveIsolated(local: Tier, id: string, other: string, cs: seq<Comment>)
    requires other != id
    ensures LoadFrom(local[LocalKey(id) := Serialize(cs)], other) == LoadFrom(local, other)
  {
    LocalKeyInjective(id, other);
  }

  /**
   * First load on a new machine: nothing stored locally, one remote entry;
   * the list then holds exactly that entry, and saving writes it back unchanged.
   */
  lemma FirstLoadTakesRemote(id: string, s: StoredComment)
    ensures Merge(LoadFrom(map[], id), Deserialize([s])) == [Hydrate(s)]
    ensures Serialize(Merge(LoadFrom(map[], id), Deserialize([s]))) == [s]
  {
    MergeIntoEmpty(Deserialize([s]));
  }

  /** `comments.splice(index, 1)` */
  function RemoveAt(cs: seq<Comment>, index: nat): (r: seq<Comment>)
    requires index < |cs|
    ensures |r| == |cs| - 1
    ensures forall j :: 0 <= j < index ==> r[j] == cs[j]
    ensures forall j :: index <= j < |r| ==> r[j] == cs[j + 1]
    ensures multiset(r) + multiset{cs[index]} == multiset(cs)
  {
    assert cs == cs[..index] + [cs[index]] + cs[index + 1..];
    cs[..index] + cs[index + 1..]
  }

  /** `deleteComment` was given an index outside the list: `comments[index]` is undefined, so reading its `highlight` throws. */
  datatype DeleteError = NoCommentAt(index: int)

  class AnnotationStore {
    var pdfId: Option<string>
    var comments: seq<Comment>

    /** The state before any file is chosen. */
    constructor ()
      ensures pdfId == None && comments == []
    {
      pdfId := None;
      comments := [];
    }

    /** `pdfId = await generatePDFId(file)` */
    method OpenDocument(bytes: seq<Fingerprint.byte>)
      modifies this
      ensures pdfId == Some(Fingerprint.PdfId(bytes))
      ensures comments == old(comments)
    {
      var id := Fingerprint.GeneratePdfId(bytes);
      pdfId := Some(id);
    }

    /** The synchronous half of `loadComments`: replace the list with the local copy. */
    method LoadLocal(local: Tier)
      modifies this
      ensures pdfId == old(pdfId)
      ensures old(pdfId).None? ==> comments == old(comments)
      ensures old(pdfId).Some? ==> comments == LoadFrom(local, old(pdfId).value)
      ensures old(pdfId).Some? ==> forall c :: c in comments ==> c.highlight == None
    {
      if pdfId.Some? {
        var key := LocalKey(pdfId.value);
        if key in local {
          comments := Deserialize(local[key]);
        } else {
          comments := [];
        }
      }
    }

    /**
     * The callback of the remote read in `loadComments`; `doc` is the
     * document's `comments` field, None when the document does not exist.
     */
    method MergeRemote(doc: Option<seq<StoredComment>>)
      requires pdfId.Some?
      modifies this
      ensures pdfId == old(pdfId)
      ensures doc.None? ==> comments == old(comments)
      ensures doc.Some? ==> comments == Merge(old(comments), Deserialize(doc.value))
      ensures comments[..|old(comments)|] == old(comments)
    {
      if doc.Some? {
        var shared := Deserialize(doc.value);
        comments := Merge(comments, shared);
      }
    }

    /** `saveComments`: write the projected list to both tiers, or nothing without a document. */
    method Save(local: Tier, remote: Tier) returns (local': Tier, remote': Tier)
      ensures pdfId.None? ==> local' == local && remote' == remote
      ensures pdfId.Some? ==> local' == local[LocalKey(pdfId.value) := Serialize(comments)]
      ensures pdfId.Some? ==> remote' == remote[pdfId.value := Serialize(comments)]
    {
      local', remote' := local, remote;
      if pdfId.Some? {
        var toSave := Serialize(comments);
        local' := local[LocalKey(pdfId.value) := toSave];
        remote' := remote[pdfId.value := toSave];
      }
    }

    /** `addComment`: push a user comment anchored to the drag rectangle, then save. */
    method AddComment(pageWrapper: Handle, pageNum: int, userName: string, commentText: string,
                      dragStart: Point, dragEnd: Point, highlight: Handle, timestamp: string,
                      local: Tier, remote: Tier)
      returns (local': Tier, remote': Tier)
      modifies this
      ensures pdfId == old(pdfId)
      ensures comments == old(comments) + [UserComment(userName, commentText, pageNum,
                                             DragRect(dragStart, dragEnd), timestamp, highlight, pageWrapper)]
      ensures pdfId.Some? ==> local' == local[LocalKey(pdfId.value) := Serialize(comments)]
      ensures pdfId.Some? ==> remote' == remote[pdfId.value := Serialize(comments)]
      ensures pdfId.None? ==> local' == local && remote' == remote
    {
      var pos := DragRect(dragStart, dragEnd);
      var c := UserComment(userName, commentText, pageNum, pos, timestamp, highlight, pageWrapper);
      comments := comments + [c];
      local', remote' := Save(local, remote);
    }

    /** The success path of `analyzeWithAI`: push the AI note, then save. */
    method AddAiNote(pageWrapper: Handle, pageNum: int, result: Option<string>, timestamp: string,
                     local: Tier, remote: Tier)
      returns (local': Tier, remote': Tier)
      modifies this
      ensures pdfId == old(pdfId)
      ensures comments == old(comments) + [AiNote(result, pageNum, timestamp, pageWrapper)]
      ensures pdfId.Some? ==> local' == local[LocalKey(pdfId.value) := Serialize(comments)]
      ensures pdfId.Some? ==> remote' == remote[pdfId.value := Serialize(comments)]
      ensures pdfId.None? ==> local' == local && remote' == remote
    {
      var c := AiNote(result, pageNum, timestamp, pageWrapper);
      comments := comments + [c];
      local', remote' := Save(local, remote);
    }

    /**
     * `deleteComment`: remove the entry at a position of the whole list and
     * save; on success, the highlight element to remove from the page.
     */
    method DeleteComment(index: int, local: Tier, remote: Tier)
      returns (outcome: Result<Option<Handle>, DeleteError>, local': Tier, remote': Tier)
      modifies this
      ensures pdfId == old(pdfId)
      ensures outcome.Failure? <==> !(0 <= index < |old(comments)|)
      ensures outcome.Failure? ==>
        outcome.error == NoCommentAt(index) && comments == old(comments) && local' == local && remote' == remote
      ensures outcome.Success? ==>
        outcome.value == old(comments)[index].highlight && comments == RemoveAt(old(comments), index)
      ensures outcome.Success? && pdfId.Some? ==>
        local' == local[LocalKey(pdfId.value) := Serialize(comments)] &&
        remote' == remote[pdfId.value := Serialize(comments)]
      ensures outcome.Success? && pdfId.None? ==> local' == local && remote' == remote
    {
      if !(0 <= index < |comments|) {
        return Failure(NoCommentAt(index)), local, remote;
      }
      var removed := comments[index].highlight;
      comments := RemoveAt(comments, index);
      local', remote' := Save(local, remote);
      outcome := Success(removed);
    }
  }
}
