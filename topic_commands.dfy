/**
 * The concrete commands of src/commands/topic_commands.py, run against an
 * abstract store. The store records every request it receives, in order,
 * and answers each from a fixed function of the whole request history, so
 * it stands for any deterministic store, including the operations whose
 * source is not part of this model (`delete_topic`, `move_topic`,
 * `delete_extraction`, `get_topic_details`,
 * `get_topic_and_all_descendants_details`, `create_topic` with restore
 * arguments). A command's `execute` that raises returns `Fail(message)`.
 */
module Commands {
  import opened Wrappers
  import opened Text
  import DataManager

  type Id = DataManager.Id

  /**
   * One entry of `get_topic_and_all_descendants_details`: a topic with
   * everything needed to recreate it. `content` is `None` when the entry
   * has no content key and `Some(v)` when it has one, `v` being its value
   * (possibly `None`); for a parent id and a display order `.get` reads a
   * missing key and a `None` value alike, so one `Option` covers both.
   */
  datatype TopicDetails = TopicDetails(
    id: Id,
    title: string,
    parentId: Option<Id>,
    content: Option<Option<string>>,
    textFileUuid: string,
    createdAt: int,
    updatedAt: int,
    displayOrder: Option<int>)

  /** A request to the store, with the arguments the command passes. */
  datatype Call =
    | CreateTopic(textContent: string, parentId: Option<Id>, customTitle: Option<string>)
    | RestoreTopic(topicId: Id, restoreParentId: Option<Id>, restoreTitle: string, restoreContent: Option<string>,
                   textFileUuid: string, createdAt: int, updatedAt: int, displayOrder: Option<int>)
    | DeleteTopic(deleteId: Id)
    | UpdateTopicTitle(titleTopicId: Id, newTitle: string)
    | SaveTopicContent(contentTopicId: Id, newContent: string)
    | GetTopicDetails(detailsId: Id)
    | CreateExtraction(parentTopicId: Id, childTopicId: Id, startChar: int, endChar: int)
    | DeleteExtraction(extractionId: Id)
    | MoveTopic(moveTopicId: Id, newParentId: Option<Id>, newDisplayOrder: int)
    | GetSubtree(rootId: Id)

  /** The store's answer: a success flag, a new id, a topic's title (`None` for no topic), or a list of topics. */
  datatype Reply =
    | Flag(ok: bool)
    | NewId(newId: Option<Id>)
    | Details(title: Option<string>)
    | Subtree(entries: seq<TopicDetails>)

  /** A reply read as a success flag; a reply of any other kind counts as failure. */
  predicate FlagReply(r: Reply) {
    r.Flag? && r.ok
  }

  function IdReply(r: Reply): Option<Id> {
    if r.NewId? then r.newId else None
  }

  function TitleReply(r: Reply): Option<string> {
    if r.Details? then r.title else None
  }

  function SubtreeReply(r: Reply): seq<TopicDetails> {
    if r.Subtree? then r.entries else []
  }

  /** The store as the commands see it. */
  class StoreInterface {
    /** Every request made so far, oldest first. */
    var calls: seq<Call>
    /** The answer to the last request of a history. */
    const answer: seq<Call> -> Reply

    constructor (answer: seq<Call> -> Reply)
      ensures calls == [] && this.answer == answer
    {
      calls := [];
      this.answer := answer;
    }

    method Request(c: Call) returns (r: Reply)
      modifies this
      ensures calls == old(calls) + [c]
      ensures r == answer(calls)
    {
      calls := calls + [c];
      r := answer(calls);
    }
  }

  const CreateFailed: string := "Failed to create topic in DataManager"
  const ChildFailed: string := "Failed to create child topic for extraction in DataManager."
  const LinkFailed: string := "Failed to create extraction link in DataManager."

  function Quoted(s: string): string {
    "'" + s + "'"
  }

  // ---------------------------------------------------------------------------
  // CreateTopicCommand

  /** What one `execute` of a create command leaves behind. */
  datatype CreateStep = CreateStep(calls: seq<Call>, newTopicId: Option<Id>, description: string, outcome: Outcome<string>)

  /** `CreateTopicCommand.execute`, starting from the request history `calls`. */
  function CreateTopicRun(answer: seq<Call> -> Reply, calls: seq<Call>, textContent: string,
                          parentId: Option<Id>, customTitle: Option<string>, description: string): CreateStep
  {
    var c1 := calls + [CreateTopic(textContent, parentId, customTitle)];
    var id := IdReply(answer(c1));
    if !Truthy(id) then CreateStep(c1, id, description, Fail(CreateFailed))
    else if Truthy(customTitle) then CreateStep(c1, id, "Create Topic " + Quoted(customTitle.value), Pass)
    else
      var c2 := c1 + [GetTopicDetails(id.value)];
      CreateStep(c2, id, "Create Topic " + Quoted(TitleReply(answer(c2)).GetOr("New Topic")), Pass)
  }

  /** `CreateTopicCommand.undo`: deletes the created topic when its id is set. */
  function CreateTopicUndoCalls(newTopicId: Option<Id>): seq<Call> {
    if Truthy(newTopicId) then [DeleteTopic(newTopicId.value)] else []
  }

  /**
   * An execute asks the store to create the topic with the command's
   * arguments, and raises exactly when no id comes back; in that case the
   * description is unchanged and an undo deletes nothing. After a
   * successful execute, undo deletes exactly the id the store returned, and
   * the description names the custom title when there is one; otherwise
   * exactly one details request for the new id follows, and the description
   * names the title it returns, or "New Topic" when it returns no topic.
   */
  lemma CreateTopicProtocol(answer: seq<Call> -> Reply, calls: seq<Call>, textContent: string,
                            parentId: Option<Id>, customTitle: Option<string>, description: string)
    ensures var run := CreateTopicRun(answer, calls, textContent, parentId, customTitle, description);
      var c1 := calls + [CreateTopic(textContent, parentId, customTitle)];
      var id := IdReply(answer(c1));
      && |c1| <= |run.calls| && run.calls[..|c1|] == c1
      && run.newTopicId == id
      && (run.outcome.Fail? <==> !Truthy(id))
      && (run.outcome.Fail? ==> run.calls == c1 && run.description == description
                                && run.outcome.error == CreateFailed && CreateTopicUndoCalls(run.newTopicId) == [])
      && (run.outcome.Pass? ==> CreateTopicUndoCalls(run.newTopicId) == [DeleteTopic(id.value)])
      && (run.outcome.Pass? && Truthy(customTitle) ==>
            run.calls == c1 && run.description == "Create Topic '" + customTitle.value + "'")
      && (run.outcome.Pass? && !Truthy(customTitle) ==>
            var c2 := c1 + [GetTopicDetails(id.value)];
            var fetched := TitleReply(answer(c2));
            && run.calls == c2
            && (fetched.Some? ==> run.description == "Create Topic '" + fetched.value + "'")
            && (fetched.None? ==> run.description == "Create Topic 'New Topic'"))
  {
  }

  class CreateTopicCommand {
    const store: StoreInterface
    const parentId: Option<Id>
    const customTitle: Option<string>
    const textContent: string
    var newTopicId: Option<Id>
    var description: string

    constructor (store: StoreInterface, parentId: Option<Id>, customTitle: Option<string>, textContent: string)
      ensures this.store == store && this.parentId == parentId && this.customTitle == customTitle
      ensures this.textContent == textContent
      ensures newTopicId == None && description == "Create Topic"
    {
      this.store := store;
      this.parentId := parentId;
      this.customTitle := customTitle;
      this.textContent := textContent;
      newTopicId := None;
      description := "Create Topic";
    }

    method Execute() returns (outcome: Outcome<string>)
      modifies this, store
      ensures var run := CreateTopicRun(store.answer, old(store.calls), textContent, parentId, customTitle, old(description));
        store.calls == run.calls && newTopicId == run.newTopicId && description == run.description && outcome == run.outcome
    {
      var reply := store.Request(CreateTopic(textContent, parentId, customTitle));
      newTopicId := IdReply(reply);
      if !Truthy(newTopicId) {
        return Fail(CreateFailed);
      }
      var actualTitle := customTitle;
      if !Truthy(actualTitle) {
        var details := store.Request(GetTopicDetails(newTopicId.value));
        actualTitle := Some(TitleReply(details).GetOr("New Topic"));
      }
      description := "Create Topic " + Quoted(actualTitle.value);
      return Pass;
    }

    /** Deletes what the last execute created; a failed delete is only logged. */
    method Undo()
      modifies store
      ensures store.calls == old(store.calls) + CreateTopicUndoCalls(newTopicId)
    {
      if Truthy(newTopicId) {
        var _ := store.Request(DeleteTopic(newTopicId.value));
      }
    }

    /** The inherited `redo`: execute again. */
    method Redo() returns (outcome: Outcome<string>)
      modifies this, store
      ensures var run := CreateTopicRun(store.answer, old(store.calls), textContent, parentId, customTitle, old(description));
        store.calls == run.calls && newTopicId == run.newTopicId && description == run.description && outcome == run.outcome
    {
      outcome := Execute();
    }
  }

  // ---------------------------------------------------------------------------
  // ChangeTopicTitleCommand, SaveTopicContentCommand, MoveTopicCommand

  class ChangeTopicTitleCommand {
    const store: StoreInterface
    const topicId: Id
    const oldTitle: string
    const newTitle: string
    const description: string

    constructor (store: StoreInterface, topicId: Id, oldTitle: string, newTitle: string)
      ensures this.store == store && this.topicId == topicId && this.oldTitle == oldTitle && this.newTitle == newTitle
      ensures description == "Rename Topic " + Quoted(oldTitle) + " to " + Quoted(newTitle)
    {
      this.store := store;
      this.topicId := topicId;
      this.oldTitle := oldTitle;
      this.newTitle := newTitle;
      description := "Rename Topic " + Quoted(oldTitle) + " to " + Quoted(newTitle);
    }

    /** Sets the new title; raises when the store reports failure. */
    method Execute() returns (outcome: Outcome<string>)
      modifies store
      ensures store.calls == old(store.calls) + [UpdateTopicTitle(topicId, newTitle)]
      ensures outcome.Pass? <==> FlagReply(store.answer(store.calls))
      ensures outcome.Fail? ==> outcome.error == "DataManager failed to update title for topic " + topicId
    {
      var reply := store.Request(UpdateTopicTitle(topicId, newTitle));
      if !FlagReply(reply) {
        return Fail("DataManager failed to update title for topic " + topicId);
      }
      return Pass;
    }

    /** Puts the old title back; a failure is only logged. */
    method Undo()
      modifies store
      ensures store.calls == old(store.calls) + [UpdateTopicTitle(topicId, oldTitle)]
    {
      var _ := store.Request(UpdateTopicTitle(topicId, oldTitle));
    }

    method Redo() returns (outcome: Outcome<string>)
      modifies store
      ensures store.calls == old(store.calls) + [UpdateTopicTitle(topicId, newTitle)]
      ensures outcome.Pass? <==> FlagReply(store.answer(store.calls))
      ensures outcome.Fail? ==> outcome.error == "DataManager failed to update title for topic " + topicId
    {
      outcome := Execute();
    }
  }

  class SaveTopicContentCommand {
    const store: StoreInterface
    const topicId: Id
    const oldContent: string
    const newContent: string
    const description: string

    constructor (store: StoreInterface, topicId: Id, oldContent: string, newContent: string,
                 topicTitle: string := "Unknown Topic")
      ensures this.store == store && this.topicId == topicId
      ensures this.oldContent == oldContent && this.newContent == newContent
      ensures description == "Save Content for Topic " + Quoted(topicTitle)
    {
      this.store := store;
      this.topicId := topicId;
      this.oldContent := oldContent;
      this.newContent := newContent;
      description := "Save Content for Topic " + Quoted(topicTitle);
    }

    /** Saves the new content; raises when the store reports failure. */
    method Execute() returns (outcome: Outcome<string>)
      modifies store
      ensures store.calls == old(store.calls) + [SaveTopicContent(topicId, newContent)]
      ensures outcome.Pass? <==> FlagReply(store.answer(store.calls))
      ensures outcome.Fail? ==> outcome.error == "DataManager failed to save content for topic " + topicId
    {
      var reply := store.Request(SaveTopicContent(topicId, newContent));
      if !FlagReply(reply) {
        return Fail("DataManager failed to save content for topic " + topicId);
      }
      return Pass;
    }

    /** Saves the old content back; a failure is only logged. */
    method Undo()
      modifies store
      ensures store.calls == old(store.calls) + [SaveTopicContent(topicId, oldContent)]
    {
      var _ := store.Request(SaveTopicContent(topicId, oldContent));
    }

    method Redo() returns (outcome: Outcome<string>)
      modifies store
      ensures store.calls == old(store.calls) + [SaveTopicContent(topicId, newContent)]
      ensures outcome.Pass? <==> FlagReply(store.answer(store.calls))
      ensures outcome.Fail? ==> outcome.error == "DataManager failed to save content for topic " + topicId
    {
      outcome := Execute();
    }
  }

  class MoveTopicCommand {
    const store: StoreInterface
    const topicId: Id
    const oldParentId: Option<Id>
    const oldDisplayOrder: int
    const newParentId: Option<Id>
    const newDisplayOrder: int
    const description: string

    /** Asks the store for the topic's title, to name it in the description; the id stands in when there is none. */
    constructor (store: StoreInterface, topicId: Id, oldParentId: Option<Id>, oldDisplayOrder: int,
                 newParentId: Option<Id>, newDisplayOrder: int)
      modifies store
      ensures this.store == store && this.topicId == topicId
      ensures this.oldParentId == oldParentId && this.oldDisplayOrder == oldDisplayOrder
      ensures this.newParentId == newParentId && this.newDisplayOrder == newDisplayOrder
      ensures store.calls == old(store.calls) + [GetTopicDetails(topicId)]
      ensures description == "Move Topic " + Quoted(TitleReply(store.answer(store.calls)).GetOr(topicId))
    {
      this.store := store;
      this.topicId := topicId;
      this.oldParentId := oldParentId;
      this.oldDisplayOrder := oldDisplayOrder;
      this.newParentId := newParentId;
      this.newDisplayOrder := newDisplayOrder;
      var details := store.Request(GetTopicDetails(topicId));
      description := "Move Topic " + Quoted(TitleReply(details).GetOr(topicId));
    }

    /** Moves the topic to its new place; raises when the store reports failure. */
    method Execute() returns (outcome: Outcome<string>)
      modifies store
      ensures store.calls == old(store.calls) + [MoveTopic(topicId, newParentId, newDisplayOrder)]
      ensures outcome.Pass? <==> FlagReply(store.answer(store.calls))
      ensures outcome.Fail? ==> outcome.error == "DataManager failed to move topic " + topicId
    {
      var reply := store.Request(MoveTopic(topicId, newParentId, newDisplayOrder));
      if !FlagReply(reply) {
        return Fail("DataManager failed to move topic " + topicId);
      }
      return Pass;
    }

    /** Moves the topic back; a failure is only logged. */
    method Undo()
      modifies store
      ensures store.calls == old(store.calls) + [MoveTopic(topicId, oldParentId, oldDisplayOrder)]
    {
      var _ := store.Request(MoveTopic(topicId, oldParentId, oldDisplayOrder));
    }

    method Redo() returns (outcome: Outcome<string>)
      modifies store
      ensures store.calls == old(store.calls) + [MoveTopic(topicId, newParentId, newDisplayOrder)]
      ensures outcome.Pass? <==> FlagReply(store.answer(store.calls))
      ensures outcome.Fail? ==> outcome.error == "DataManager failed to move topic " + topicId
    {
      outcome := Execute();
    }
  }

  // ---------------------------------------------------------------------------
  // ExtractTextCommand

  /** What one `execute` of an extract command leaves behind. */
  datatype ExtractStep = ExtractStep(
    calls: seq<Call>,
    childTopicId: Option<Id>,
    extractionId: Option<Id>,
    childTopicTitle: string,
    description: string,
    outcome: Outcome<string>)

  /**
   * `ExtractTextCommand.execute` from the request history `calls`; the last
   * three arguments are the fields an earlier execute left.
   */
  function ExtractRun(answer: seq<Call> -> Reply, calls: seq<Call>, parentTopicId: Id, selectedText: string,
                      startChar: int, endChar: int,
                      extractionId: Option<Id>, childTopicTitle: string, description: string): ExtractStep
  {
    var c1 := calls + [CreateTopic(selectedText, Some(parentTopicId), None)];
    var child := IdReply(answer(c1));
    if !Truthy(child) then ExtractStep(c1, child, extractionId, childTopicTitle, description, Fail(ChildFailed))
    else
      var c2 := c1 + [GetTopicDetails(child.value)];
      var title := TitleReply(answer(c2)).GetOr("New Extract");
      var desc := "Extract Text to " + Quoted(title);
      var c3 := c2 + [CreateExtraction(parentTopicId, child.value, startChar, endChar)];
      var link := IdReply(answer(c3));
      if !Truthy(link) then
        ExtractStep(c3 + [DeleteTopic(child.value)], None, link, title, desc, Fail(LinkFailed))
      else ExtractStep(c3, child, link, title, desc, Pass)
  }

  /** `ExtractTextCommand.undo`: the extraction first, then the child topic, each only when set. */
  function ExtractUndoCalls(extractionId: Option<Id>, childTopicId: Option<Id>): seq<Call> {
    (if Truthy(extractionId) then [DeleteExtraction(extractionId.value)] else [])
    + (if Truthy(childTopicId) then [DeleteTopic(childTopicId.value)] else [])
  }

  /**
   * An execute first creates the child under the parent with the selected
   * text as content; if that yields no id it raises at once. Otherwise it
   * links the child with the span passed through unchanged. If the link
   * yields no id it deletes the child it just created, forgets it, and
   * raises, leaving an undo nothing to do. After a successful execute an
   * undo deletes the extraction and then the child.
   */
  lemma ExtractTextProtocol(answer: seq<Call> -> Reply, calls: seq<Call>, parentTopicId: Id, selectedText: string,
                            startChar: int, endChar: int,
                            extractionId: Option<Id>, childTopicTitle: string, description: string)
    ensures var run := ExtractRun(answer, calls, parentTopicId, selectedText, startChar, endChar,
                                  extractionId, childTopicTitle, description);
      var c1 := calls + [CreateTopic(selectedText, Some(parentTopicId), None)];
      var child := IdReply(answer(c1));
      && |c1| <= |run.calls| && run.calls[..|c1|] == c1
      && (!Truthy(child) ==> run.calls == c1 && run.outcome == Fail(ChildFailed) && !Truthy(run.childTopicId))
      && (Truthy(child) ==>
            && |run.calls| >= |c1| + 2
            && run.calls[|c1| + 1] == CreateExtraction(parentTopicId, child.value, startChar, endChar)
            && (run.outcome.Fail? <==> !Truthy(run.extractionId))
            && (run.outcome.Fail? ==>
                  && run.outcome.error == LinkFailed
                  && run.calls[|run.calls| - 1] == DeleteTopic(child.value)
                  && ExtractUndoCalls(run.extractionId, run.childTopicId) == [])
            && (run.outcome.Pass? ==>
                  ExtractUndoCalls(run.extractionId, run.childTopicId)
                  == [DeleteExtraction(run.extractionId.value), DeleteTopic(child.value)]))
  {
  }

  class ExtractTextCommand {
    const store: StoreInterface
    const parentTopicId: Id
    const selectedText: string
    const startChar: int
    const endChar: int
    var childTopicId: Option<Id>
    var extractionId: Option<Id>
    var childTopicTitle: string
    var description: string

    constructor (store: StoreInterface, parentTopicId: Id, selectedText: string, startChar: int, endChar: int)
      ensures this.store == store && this.parentTopicId == parentTopicId && this.selectedText == selectedText
      ensures this.startChar == startChar && this.endChar == endChar
      ensures childTopicId == None && extractionId == None && childTopicTitle == "" && description == "Extract Text"
    {
      this.store := store;
      this.parentTopicId := parentTopicId;
      this.selectedText := selectedText;
      this.startChar := startChar;
      this.endChar := endChar;
      childTopicId, extractionId := None, None;
      childTopicTitle := "";
      description := "Extract Text";
    }

    method Execute() returns (outcome: Outcome<string>)
      modifies this, store
      ensures var run := ExtractRun(store.answer, old(store.calls), parentTopicId, selectedText, startChar, endChar,
                                    old(extractionId), old(childTopicTitle), old(description));
        && store.calls == run.calls && childTopicId == run.childTopicId && extractionId == run.extractionId
        && childTopicTitle == run.childTopicTitle && description == run.description && outcome == run.outcome
    {
      var reply := store.Request(CreateTopic(selectedText, Some(parentTopicId), None));
      childTopicId := IdReply(reply);
      if !Truthy(childTopicId) {
        return Fail(ChildFailed);
      }
      var child := childTopicId.value;
      var details := store.Request(GetTopicDetails(child));
      childTopicTitle := TitleReply(details).GetOr("New Extract");
      description := "Extract Text to " + Quoted(childTopicTitle);
      var link := store.Request(CreateExtraction(parentTopicId, child, startChar, endChar));
      extractionId := IdReply(link);
      if !Truthy(extractionId) {
        var _ := store.Request(DeleteTopic(child));
        childTopicId := None;
        return Fail(LinkFailed);
      }
      return Pass;
    }

    /** Deletes the extraction, then the child topic; failures are only logged. */
    method Undo()
      modifies store
      ensures store.calls == old(store.calls) + ExtractUndoCalls(extractionId, childTopicId)
    {
      if Truthy(extractionId) {
        var _ := store.Request(DeleteExtraction(extractionId.value));
      }
      if Truthy(childTopicId) {
        var _ := store.Request(DeleteTopic(childTopicId.value));
      }
    }

    method Redo() returns (outcome: Outcome<string>)
      modifies this, store
      ensures var run := ExtractRun(store.answer, old(store.calls), parentTopicId, selectedText, startChar, endChar,
                                    old(extractionId), old(childTopicTitle), old(description));
        && store.calls == run.calls && childTopicId == run.childTopicId && extractionId == run.extractionId
        && childTopicTitle == run.childTopicTitle && description == run.description && outcome == run.outcome
    {
      outcome := Execute();
    }
  }

  // ---------------------------------------------------------------------------
  // DeleteMultipleTopicsCommand

  function IdsOf(s: seq<TopicDetails>): (r: seq<Id>)
    ensures |r| == |s| && forall k :: 0 <= k < |s| ==> r[k] == s[k].id
  {
    if s == [] then [] else [s[0].id] + IdsOf(s[1..])
  }

  predicate DistinctIds(s: seq<Id>) {
    forall i, j :: 0 <= i < j < |s| ==> s[i] != s[j]
  }

  /** The requests and the topics gathered by fetching the subtree of each root in turn. */
  datatype Fetch = Fetch(calls: seq<Call>, details: seq<TopicDetails>)

  function Gather(answer: seq<Call> -> Reply, calls: seq<Call>, roots: seq<Id>): Fetch
    decreases |roots|
  {
    if roots == [] then Fetch(calls, [])
    else
      var c1 := calls + [GetSubtree(roots[0])];
      var rest := Gather(answer, c1, roots[1..]);
      Fetch(rest.calls, SubtreeReply(answer(c1)) + rest.details)
  }

  /** The topics of `s` whose ids are not in `seen`, keeping the first of each id. */
  function DedupFrom(s: seq<TopicDetails>, seen: set<Id>): seq<TopicDetails>
    decreases |s|
  {
    if s == [] then []
    else if s[0].id in seen then DedupFrom(s[1..], seen)
    else [s[0]] + DedupFrom(s[1..], seen + {s[0].id})
  }

  /** A delete request for each root, in order, whose id is in `snapshotIds`. */
  function DeleteCalls(roots: seq<Id>, snapshotIds: seq<Id>): seq<Call>
    decreases |roots|
  {
    if roots == [] then []
    else
      var last := roots[|roots| - 1];
      DeleteCalls(roots[..|roots| - 1], snapshotIds) + (if last in snapshotIds then [DeleteTopic(last)] else [])
  }

  /** One restore request per snapshot entry, in order, with the entry's own fields. */
  function RestoreCalls(snapshot: seq<TopicDetails>): seq<Call>
    decreases |snapshot|
  {
    if snapshot == [] then []
    else
      var d := snapshot[|snapshot| - 1];
      RestoreCalls(snapshot[..|snapshot| - 1]) + [RestoreArgs(d)]
  }

  /** The arguments of the restoring `create_topic`: `topic_data.get('content', '')` gives "" only for a missing key. */
  function RestoreArgs(d: TopicDetails): Call {
    RestoreTopic(d.id, d.parentId, d.title, d.content.GetOr(Some("")), d.textFileUuid, d.createdAt, d.updatedAt, d.displayOrder)
  }

  /**
   * A restoring call recreates the entry with its own id, parent, title,
   * file id, timestamps and order; the content is the stored value, which
   * may be `None`, or "" when the entry carries no content at all.
   */
  lemma RestoreArgsFields(d: TopicDetails)
    ensures var c := RestoreArgs(d);
      && c.RestoreTopic? && c.topicId == d.id && c.restoreParentId == d.parentId && c.restoreTitle == d.title
      && c.textFileUuid == d.textFileUuid && c.createdAt == d.createdAt && c.updatedAt == d.updatedAt
      && c.displayOrder == d.displayOrder
      && (d.content.None? ==> c.restoreContent == Some(""))
      && (d.content.Some? ==> c.restoreContent == d.content.value)
  {
  }

  /** The snapshot holds no id twice, and none of `seen`. */
  lemma {:induction false} DedupDistinct(s: seq<TopicDetails>, seen: set<Id>)
    ensures DistinctIds(IdsOf(DedupFrom(s, seen)))
    ensures forall k :: 0 <= k < |DedupFrom(s, seen)| ==> DedupFrom(s, seen)[k].id !in seen
    decreases |s|
  {
    if s != [] {
      if s[0].id in seen {
        DedupDistinct(s[1..], seen);
      } else {
        DedupDistinct(s[1..], seen + {s[0].id});
      }
    }
  }

  /** The snapshot has exactly the ids gathered, less those in `seen`. */
  lemma {:induction false} DedupIds(s: seq<TopicDetails>, seen: set<Id>)
    ensures forall id :: id in IdsOf(DedupFrom(s, seen)) <==> id in IdsOf(s) && id !in seen
    decreases |s|
  {
    if s != [] {
      var seen' := if s[0].id in seen then seen else seen + {s[0].id};
      DedupIds(s[1..], seen');
      assert IdsOf(s) == [s[0].id] + IdsOf(s[1..]);
    }
  }

  /** No entry before index `i` of `s` has the id of `s[i]`. */
  predicate FirstWithId(s: seq<TopicDetails>, i: nat)
    requires i < |s|
  {
    forall j :: 0 <= j < i ==> s[j].id != s[i].id
  }

  /** Each snapshot entry is the first gathered entry with its id. */
  lemma {:induction false} DedupKeepsFirst(s: seq<TopicDetails>, seen: set<Id>)
    ensures forall k :: 0 <= k < |DedupFrom(s, seen)| ==>
              exists i :: 0 <= i < |s| && s[i] == DedupFrom(s, seen)[k] && FirstWithId(s, i)
    decreases |s|
  {
    if s != [] {
      var seen' := if s[0].id in seen then seen else seen + {s[0].id};
      var r, rest := DedupFrom(s, seen), DedupFrom(s[1..], seen');
      DedupKeepsFirst(s[1..], seen');
      DedupDistinct(s[1..], seen');
      forall k | 0 <= k < |r|
        ensures exists i :: 0 <= i < |s| && s[i] == r[k] && FirstWithId(s, i)
      {
        if s[0].id !in seen && k == 0 {
          assert s[0] == r[0] && FirstWithId(s, 0);
        } else {
          var k' := if s[0].id in seen then k else k - 1;
          assert r[k] == rest[k'];
          var i :| 0 <= i < |s[1..]| && s[1..][i] == rest[k'] && FirstWithId(s[1..], i);
          assert rest[k'].id !in seen';
          assert s[0].id != s[i + 1].id by {
            if s[0].id !in seen { assert s[0].id in seen'; }
          }
          forall j | 0 <= j < i + 1 ensures s[j].id != s[i + 1].id {
            if j > 0 { assert s[j] == s[1..][j - 1]; }
          }
          assert s[i + 1] == r[k] && FirstWithId(s, i + 1);
        }
      }
    } else {
      assert DedupFrom(s, seen) == [];
    }
  }

  /** `a` is `b` with some entries left out and the others kept in their order. */
  predicate Subseq<T(==)>(a: seq<T>, b: seq<T>)
    decreases |b|
  {
    a == [] || (b != [] && ((a[0] == b[0] && Subseq(a[1..], b[1..])) || Subseq(a, b[1..])))
  }

  /**
   * The snapshot keeps the fetch order: it is the gathered list with the
   * repeated entries left out, so an entry fetched before another is
   * restored before it.
   */
  lemma {:induction false} DedupInFetchOrder(s: seq<TopicDetails>, seen: set<Id>)
    ensures Subseq(DedupFrom(s, seen), s)
    decreases |s|
  {
    if s != [] {
      if s[0].id in seen {
        DedupInFetchOrder(s[1..], seen);
      } else {
        DedupInFetchOrder(s[1..], seen + {s[0].id});
        var r := DedupFrom(s, seen);
        assert r[0] == s[0] && r[1..] == DedupFrom(s[1..], seen + {s[0].id});
      }
    }
  }

  /** The index of the first entry of `s` with the id, or `|s|` when there is none. */
  function FirstIndex(s: seq<TopicDetails>, id: Id): (r: nat)
    ensures r <= |s|
    ensures r < |s| ==> s[r].id == id && FirstWithId(s, r)
    ensures r == |s| ==> forall j :: 0 <= j < |s| ==> s[j].id != id
  {
    if s == [] then 0
    else if s[0].id == id then 0
    else
      var k := FirstIndex(s[1..], id);
      assert k < |s[1..]| ==> forall j :: 1 <= j < k + 1 ==> s[j] == s[1..][j - 1];
      k + 1
  }

  /**
   * Snapshot entries follow the order in which their ids were first
   * fetched, repeated entries or not: with the ids (DedupIds) and the entries
   * (DedupKeepsFirst) this fixes the snapshot.
   */
  lemma {:induction false} DedupFirstOrder(s: seq<TopicDetails>, seen: set<Id>)
    ensures forall k :: 0 <= k < |DedupFrom(s, seen)| - 1 ==>
              FirstIndex(s, DedupFrom(s, seen)[k].id) < FirstIndex(s, DedupFrom(s, seen)[k + 1].id)
    decreases |s|
  {
    if s != [] {
      var seen' := if s[0].id in seen then seen else seen + {s[0].id};
      var r, rest := DedupFrom(s, seen), DedupFrom(s[1..], seen');
      DedupFirstOrder(s[1..], seen');
      DedupDistinct(s[1..], seen');
      forall k | 0 <= k < |rest| ensures FirstIndex(s, rest[k].id) == FirstIndex(s[1..], rest[k].id) + 1 {
        assert rest[k].id != s[0].id;
      }
      if s[0].id !in seen {
        assert r == [s[0]] + rest;
      }
    }
  }

  /**
   * First-fetch order is not parent-first order: when a topic `b` and its
   * parent `a` are both selected and `b`'s subtree is fetched first, the
   * snapshot lists `b` before `a`, so undo recreates the child first.
   */
  lemma SnapshotChildFirst(a: TopicDetails, b: TopicDetails)
    requires a.id != b.id && b.parentId == Some(a.id)
    ensures DedupFrom([b] + [a, b], {}) == [b, a]
    ensures RestoreCalls(DedupFrom([b] + [a, b], {})) == [RestoreArgs(b), RestoreArgs(a)]
    ensures RestoreCalls(DedupFrom([b] + [a, b], {}))[0].restoreParentId == Some(a.id)
  {
    var s1, s2: set<Id> := {b.id}, {b.id, a.id};
    assert ([b] + [a, b])[1..] == [a, b] && [a, b][1..] == [b] && [b][1..] == [];
    assert {} + {b.id} == s1 && s1 + {a.id} == s2;
    assert DedupFrom([b], s2) == [];
    assert DedupFrom([a, b], s1) == [a];
    assert DedupFrom([b] + [a, b], {}) == [b, a];
    RestoreCallsInOrder([b, a]);
  }

  /** With distinct roots, each root in the snapshot is deleted exactly once and nothing else is deleted. */
  lemma {:induction false} DeleteCallsExact(roots: seq<Id>, snapshotIds: seq<Id>)
    requires DistinctIds(roots)
    ensures forall c :: c in DeleteCalls(roots, snapshotIds) ==> c.DeleteTopic? && c.deleteId in roots && c.deleteId in snapshotIds
    ensures forall id :: multiset(DeleteCalls(roots, snapshotIds))[DeleteTopic(id)] ==
                           if id in roots && id in snapshotIds then 1 else 0
    decreases |roots|
  {
    if roots != [] {
      var init, last := roots[..|roots| - 1], roots[|roots| - 1];
      assert DistinctIds(init);
      DeleteCallsExact(init, snapshotIds);
      assert roots == init + [last];
      assert last !in init;
      assert forall id :: id in roots <==> id in init || id == last;
    }
  }

  /** The restore requests are one per snapshot entry, in snapshot order. */
  lemma {:induction false} RestoreCallsInOrder(snapshot: seq<TopicDetails>)
    ensures |RestoreCalls(snapshot)| == |snapshot|
    ensures forall k :: 0 <= k < |snapshot| ==> RestoreCalls(snapshot)[k] == RestoreArgs(snapshot[k])
    decreases |snapshot|
  {
    if snapshot != [] {
      RestoreCallsInOrder(snapshot[..|snapshot| - 1]);
    }
  }

  /** `f"Delete Topic"` for one root, `f"Delete {n} Topics"` otherwise. */
  function DeleteDescription(n: nat): string {
    if n == 1 then "Delete Topic" else "Delete " + NatToString(n) + " Topics"
  }

  /** The generic one-topic text is used exactly for one root; otherwise the text names the count in decimal. */
  lemma DeleteDescriptionCases(n: nat)
    ensures DeleteDescription(n) == "Delete Topic" <==> n == 1
    ensures n != 1 ==> exists digits :: Renders(digits, n) && DeleteDescription(n) == "Delete " + digits + " Topics"
  {
    if n != 1 {
      var digits := NatToString(n);
      NatToStringRenders(n);
      assert |DeleteDescription(n)| == 14 + |digits|;
    }
  }

  /**
   * A duplicate-free list holding exactly the ids of `s`, in order of first
   * occurrence. It stands for `list(set(s))`, whose order Python leaves
   * unspecified; nothing below depends on that order.
   */
  function UniqueIds(s: seq<Id>): (r: seq<Id>)
    ensures DistinctIds(r)
    ensures forall id :: id in r ==> id in s
    ensures forall id :: id in s ==> id in r
    decreases |s|
  {
    if s == [] then []
    else
      var init, last := s[..|s| - 1], s[|s| - 1];
      var r := UniqueIds(init);
      assert s == init + [last];
      if last in r then r else r + [last]
  }

  /** The first loop of the multi-delete: each root's subtree, in root order; an empty answer adds nothing. */
  method FetchSubtrees(store: StoreInterface, roots: seq<Id>) returns (gathered: seq<TopicDetails>)
    modifies store
    ensures var fetch := Gather(store.answer, old(store.calls), roots);
      store.calls == fetch.calls && gathered == fetch.details
  {
    ghost var whole := Gather(store.answer, store.calls, roots);
    gathered := [];
    var i := 0;
    while i < |roots|
      invariant 0 <= i <= |roots|
      invariant var rest := Gather(store.answer, store.calls, roots[i..]);
        rest.calls == whole.calls && gathered + rest.details == whole.details
    {
      ghost var before := store.calls;
      var reply := store.Request(GetSubtree(roots[i]));
      assert roots[i..][1..] == roots[i + 1..];
      ghost var rest := Gather(store.answer, store.calls, roots[i + 1..]);
      assert Gather(store.answer, before, roots[i..]) == Fetch(rest.calls, SubtreeReply(reply) + rest.details);
      var descendants := SubtreeReply(reply);
      assert gathered + (descendants + rest.details) == (gathered + descendants) + rest.details;
      if descendants != [] {
        gathered := gathered + descendants;
      } else {
        assert gathered + descendants == gathered;
      }
      i := i + 1;
    }
  }

  /** The second loop: the gathered topics, keeping the first of each id by means of a set of ids seen. */
  method Snapshot(gathered: seq<TopicDetails>) returns (snapshot: seq<TopicDetails>)
    ensures snapshot == DedupFrom(gathered, {})
  {
    var seen: set<Id> := {};
    snapshot := [];
    var j := 0;
    while j < |gathered|
      invariant 0 <= j <= |gathered|
      invariant snapshot + DedupFrom(gathered[j..], seen) == DedupFrom(gathered, {})
    {
      var details := gathered[j];
      assert gathered[j..][1..] == gathered[j + 1..];
      if details.id !in seen {
        snapshot := snapshot + [details];
        seen := seen + {details.id};
      }
      j := j + 1;
    }
  }

  /** The third loop: a delete for each root found in the snapshot; failures are only logged. */
  method DeleteRoots(store: StoreInterface, roots: seq<Id>, snapshot: seq<TopicDetails>)
    modifies store
    ensures store.calls == old(store.calls) + DeleteCalls(roots, IdsOf(snapshot))
  {
    var ids := IdsOf(snapshot);
    var deletedCount := 0;
    var k := 0;
    while k < |roots|
      invariant 0 <= k <= |roots|
      invariant store.calls == old(store.calls) + DeleteCalls(roots[..k], ids)
    {
      var topicId := roots[k];
      assert roots[..k + 1][..k] == roots[..k];
      if topicId in ids {
        var deleted := store.Request(DeleteTopic(topicId));
        if FlagReply(deleted) {
          deletedCount := deletedCount + 1;
        }
      }
      k := k + 1;
    }
    assert roots[..|roots|] == roots;
  }

  class DeleteMultipleTopicsCommand {
    const store: StoreInterface
    /** `list(set(topic_ids))`: the selected ids without repeats, in no particular order. */
    const topLevelTopicIds: seq<Id>
    const description: string
    var deletedTopicsData: seq<TopicDetails>

    constructor (store: StoreInterface, topicIds: seq<Id>)
      ensures this.store == store
      ensures DistinctIds(topLevelTopicIds)
      ensures forall id :: id in topLevelTopicIds <==> id in topicIds
      ensures description == DeleteDescription(|topLevelTopicIds|)
      ensures deletedTopicsData == []
    {
      this.store := store;
      var roots := UniqueIds(topicIds);
      topLevelTopicIds := roots;
      description := DeleteDescription(|roots|);
      deletedTopicsData := [];
    }

    /**
     * Fetches each root's subtree, keeps the first entry per id as the
     * snapshot (discarding any earlier one), then deletes each root that is
     * in the snapshot. Never raises.
     */
    method Execute()
      modifies this, store
      ensures var fetch := Gather(store.answer, old(store.calls), topLevelTopicIds);
        && deletedTopicsData == DedupFrom(fetch.details, {})
        && store.calls == fetch.calls + DeleteCalls(topLevelTopicIds, IdsOf(deletedTopicsData))
    {
      deletedTopicsData := [];
      var gathered := FetchSubtrees(store, topLevelTopicIds);
      deletedTopicsData := Snapshot(gathered);
      DeleteRoots(store, topLevelTopicIds, deletedTopicsData);
    }

    /** With an empty snapshot does nothing; otherwise recreates each snapshot entry, in order. */
    method Undo()
      modifies store
      ensures store.calls == old(store.calls) + RestoreCalls(deletedTopicsData)
    {
      if deletedTopicsData == [] {
        return;
      }
      var restoredCount := 0;
      var i := 0;
      while i < |deletedTopicsData|
        invariant 0 <= i <= |deletedTopicsData|
        invariant store.calls == old(store.calls) + RestoreCalls(deletedTopicsData[..i])
      {
        var d := deletedTopicsData[i];
        assert deletedTopicsData[..i + 1][..i] == deletedTopicsData[..i];
        var restored := store.Request(RestoreArgs(d));
        if Truthy(IdReply(restored)) {
          restoredCount := restoredCount + 1;
        }
        i := i + 1;
      }
      assert deletedTopicsData[..|deletedTopicsData|] == deletedTopicsData;
    }

    method Redo()
      modifies this, store
      ensures var fetch := Gather(store.answer, old(store.calls), topLevelTopicIds);
        && deletedTopicsData == DedupFrom(fetch.details, {})
        && store.calls == fetch.calls + DeleteCalls(topLevelTopicIds, IdsOf(deletedTopicsData))
    {
      Execute();
    }
  }
}
