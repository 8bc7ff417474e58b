/**
 * The decisions src/main_window.py takes on its own: the window title, what
 * an extract request turns into (including the title derived for the new
 * child topic), and when an edited tree title becomes a command.
 */
module Window {
  import opened Wrappers
  import opened Text
  import Editor

  type Id = string

  const AppName: string := "Iromo"
  const NoCollectionOpen: string := "No Collection Open"
  const EditingTopic: string := "Editing Topic"
  const TitleSeparator: string := " - "
  const DirtyMark: string := " *"
  /** How many leading characters of a selection the child title may come from. */
  const ChildTitleLength: nat := 50

  const NothingToExtract: string := "No topic loaded or collection open to extract from."
  const SelectTextFirst: string := "Please select text to extract."
  const SaveBeforeExtractFailed: string := "Failed to save the current topic. Extraction aborted."

  // ---------------------------------------------------------------------------
  // window title

  /** `path.rfind('/')`: the index of the last '/', or -1. */
  function LastSlash(path: string): (r: int)
    ensures -1 <= r < |path|
    ensures r >= 0 ==> path[r] == '/'
    ensures forall k :: r < k < |path| ==> path[k] != '/'
    decreases |path|
  {
    if path == [] then -1
    else if path[|path| - 1] == '/' then |path| - 1
    else LastSlash(path[..|path| - 1])
  }

  /** `os.path.basename` on a POSIX path. */
  function Basename(path: string): string {
    path[LastSlash(path) + 1..]
  }

  /** The basename is the part of the path after its last '/', and the whole path when it has none. */
  lemma BasenameShape(path: string)
    ensures '/' !in Basename(path)
    ensures '/' !in path ==> Basename(path) == path
    ensures |Basename(path)| < |path| ==> path[|path| - |Basename(path)| - 1] == '/'
    ensures path == path[..|path| - |Basename(path)|] + Basename(path)
  {
    var i := LastSlash(path);
    var b := Basename(path);
    forall k | 0 <= k < |b| ensures b[k] != '/' {
      assert b[k] == path[i + 1 + k];
    }
    if '/' !in path {
      assert i == -1;
    }
  }

  /** What `get_topic_details` answered for the editor's topic. */
  datatype TopicLookup = Missing | Found(title: Option<string>)

  /** `_update_window_title`. */
  function WindowTitle(collectionPath: Option<string>, collectionOpen: bool, isDirty: bool,
                       editorTopicId: Option<Id>, details: TopicLookup): string
  {
    var parts :=
      if Truthy(collectionPath) && collectionOpen then
        [AppName, Basename(collectionPath.value)] +
        (if !Truthy(editorTopicId) then []
         else match details
           case Missing => []
           case Found(title) => if Truthy(title) then [title.value] else [EditingTopic])
      else [AppName, NoCollectionOpen];
    Join(parts, TitleSeparator) + (if isDirty && Truthy(editorTopicId) then DirtyMark else "")
  }

  /**
   * The window title in every case: "Iromo - No Collection Open" without a
   * collection; otherwise "Iromo - <basename>", followed by " - <title>"
   * for a loaded topic with a title or " - Editing Topic" for one without;
   * " *" is added exactly when the editor is dirty and a topic is loaded.
   */
  lemma WindowTitleCases(collectionPath: Option<string>, collectionOpen: bool, isDirty: bool,
                         editorTopicId: Option<Id>, details: TopicLookup)
    ensures var mark := if isDirty && Truthy(editorTopicId) then DirtyMark else "";
      var r := WindowTitle(collectionPath, collectionOpen, isDirty, editorTopicId, details);
      && (!(Truthy(collectionPath) && collectionOpen) ==> r == AppName + TitleSeparator + NoCollectionOpen + mark)
      && (Truthy(collectionPath) && collectionOpen ==>
            var head := AppName + TitleSeparator + Basename(collectionPath.value);
            && (!Truthy(editorTopicId) || details.Missing? ==> r == head + mark)
            && (Truthy(editorTopicId) && details.Found? && Truthy(details.title) ==>
                  r == head + TitleSeparator + details.title.value + mark)
            && (Truthy(editorTopicId) && details.Found? && !Truthy(details.title) ==>
                  r == head + TitleSeparator + EditingTopic + mark))
  {
    var mark := if isDirty && Truthy(editorTopicId) then DirtyMark else "";
    if Truthy(collectionPath) && collectionOpen {
      var b := Basename(collectionPath.value);
      if Truthy(editorTopicId) && details.Found? {
        var t := if Truthy(details.title) then details.title.value else EditingTopic;
        TitleWithTopic(b, t, mark);
      } else {
        TitleWithoutTopic(b, mark);
      }
    } else {
      JoinTwo(AppName, NoCollectionOpen, TitleSeparator);
    }
  }

  /** The joined parts for an open collection and a loaded topic. */
  lemma TitleWithTopic(b: string, t: string, mark: string)
    ensures Join([AppName, b] + [t], TitleSeparator) + mark == AppName + TitleSeparator + b + TitleSeparator + t + mark
  {
    assert [AppName, b] + [t] == [AppName, b, t];
    JoinThree(AppName, b, t, TitleSeparator);
  }

  /** The joined parts for an open collection without a loaded topic. */
  lemma TitleWithoutTopic(b: string, mark: string)
    ensures Join([AppName, b] + [], TitleSeparator) + mark == AppName + TitleSeparator + b + mark
  {
    assert [AppName, b] + [] == [AppName, b];
    JoinTwo(AppName, b, TitleSeparator);
  }

  // ---------------------------------------------------------------------------
  // extract

  /** The candidate title: the first 50 characters of the selection, cut at the first '\n'. */
  function TitleCandidate(selected: string): string {
    var first := if |selected| <= ChildTitleLength then selected else selected[..ChildTitleLength];
    var newlineIndex := IndexOf(first, '\n');
    if newlineIndex != -1 then first[..newlineIndex] else first
  }

  /**
   * The title `extract_text` derives for the child topic: the candidate,
   * stripped; `None` when nothing is left.
   */
  function ChildTitle(selected: string): Option<string> {
    var candidateTitle := Strip(TitleCandidate(selected));
    if candidateTitle != "" then Some(candidateTitle) else None
  }

  /** `sub` occurs in `s` at some position. */
  predicate IsSlice(sub: string, s: string) {
    exists i, j :: 0 <= i <= j <= |s| && sub == s[i..j]
  }

  /** Every character of `s` before its first '\n' and among its first 50 is whitespace. */
  predicate BlankFirstLine(s: string) {
    forall i :: 0 <= i < |s| && i < ChildTitleLength && '\n' !in s[..i] ==> IsSpace(s[i])
  }

  /**
   * A derived child title has at most 50 characters, no '\n', no
   * whitespace at either end, and is a piece of the selection; there is
   * none exactly when the start of the selection's first line is blank.
   */
  lemma ChildTitleShape(selected: string)
    ensures var r := ChildTitle(selected);
      && (r.Some? ==> && |r.value| <= ChildTitleLength
                      && '\n' !in r.value
                      && !IsSpace(r.value[0]) && !IsSpace(r.value[|r.value| - 1])
                      && IsSlice(r.value, selected))
      && (r.None? ==> BlankFirstLine(selected))
      && (BlankFirstLine(selected) ==> r.None?)
  {
    TitleCandidateShape(selected);
    StrippedPiece(selected, TitleCandidate(selected));
  }

  /** Stripping a newline-free prefix of the selection leaves a newline-free piece of it. */
  lemma StrippedPiece(selected: string, candidate: string)
    requires '\n' !in candidate && |candidate| <= |selected| && candidate == selected[..|candidate|]
    ensures '\n' !in Strip(candidate) && IsSlice(Strip(candidate), selected)
  {
    var stripped := Strip(candidate);
    var i := StripStart(candidate);
    var j := i + |stripped|;
    SliceOfPrefix(selected, |candidate|, i, j);
    assert stripped == selected[i..j];
    forall k | 0 <= k < |stripped| ensures stripped[k] != '\n' {
      assert stripped[k] == candidate[i + k];
    }
  }

  lemma SliceOfPrefix(s: string, m: nat, i: nat, j: nat)
    requires i <= j <= m <= |s|
    ensures s[..m][i..j] == s[i..j]
  {
  }

  /** The candidate is a prefix of the selection without '\n', blank exactly when the start of the first line is. */
  lemma TitleCandidateShape(selected: string)
    ensures var c := TitleCandidate(selected);
      && '\n' !in c && |c| <= ChildTitleLength && c == selected[..|c|]
      && (IsBlank(c) ==> BlankFirstLine(selected))
      && (BlankFirstLine(selected) ==> IsBlank(c))
  {
    var first := if |selected| <= ChildTitleLength then selected else selected[..ChildTitleLength];
    var newlineIndex := IndexOf(first, '\n');
    var candidate := TitleCandidate(selected);
    assert candidate == first[..|candidate|];
    if IsBlank(candidate) {
      forall i | 0 <= i < |selected| && i < ChildTitleLength && '\n' !in selected[..i]
        ensures IsSpace(selected[i])
      {
        assert first[i] == selected[i];
        if newlineIndex == -1 || i < newlineIndex {
          assert candidate[i] == selected[i];
        }
      }
    }
    if BlankFirstLine(selected) {
      forall i | 0 <= i < |candidate| ensures IsSpace(candidate[i]) {
        assert selected[..i] == candidate[..i];
        assert candidate[i] == selected[i];
      }
    }
  }

  /** What `extract_text` does: tell the user why not, or issue the extract command. */
  datatype ExtractAction =
    | Inform(message: string)
    | Abort(warning: string)
    | Extract(parentTopicId: Id, selectedText: string, startChar: int, endChar: int, childTitle: Option<string>)

  /**
   * `extract_text`, given what the editor reports: its current topic, the
   * selection with its offsets, whether it is dirty, and whether it is still
   * dirty after the forced save.
   */
  function ExtractText(collectionOpen: bool, currentTopicId: Option<Id>, selection: Editor.SelectionInfo,
                       isDirty: bool, dirtyAfterSave: bool): (r: ExtractAction)
    ensures r.Extract? ==> && collectionOpen && Truthy(currentTopicId) && Truthy(selection.text)
                           && !(isDirty && dirtyAfterSave)
                           && r == Extract(currentTopicId.value, selection.text.value, selection.start, selection.end,
                                           ChildTitle(selection.text.value))
    ensures collectionOpen && Truthy(currentTopicId) && !Truthy(selection.text) ==> r == Inform(SelectTextFirst)
    ensures !(collectionOpen && Truthy(currentTopicId)) ==> r == Inform(NothingToExtract)
    ensures collectionOpen && Truthy(currentTopicId) && Truthy(selection.text) && isDirty && dirtyAfterSave ==>
              r == Abort(SaveBeforeExtractFailed)
    ensures collectionOpen && Truthy(currentTopicId) && Truthy(selection.text) && !(isDirty && dirtyAfterSave) ==> r.Extract?
  {
    if !collectionOpen || !Truthy(currentTopicId) then Inform(NothingToExtract)
    else if !Truthy(selection.text) then Inform(SelectTextFirst)
    else if isDirty && dirtyAfterSave then Abort(SaveBeforeExtractFailed)
    else
      var selectedText := selection.text.value;
      var customChildTitle := if selectedText != "" then ChildTitle(selectedText) else None;
      Extract(currentTopicId.value, selectedText, selection.start, selection.end, customChildTitle)
  }

  /**
   * Extracting a selection `[s, e)` of the document issues the command for
   * exactly that text with the inclusive end `e - 1`, and the editor's
   * highlight of those offsets covers `[s, e)` again; without a selection
   * no command is issued.
   */
  lemma ExtractSelection(doc: string, cursor: Editor.Cursor, parent: Id, isDirty: bool, dirtyAfterSave: bool)
    requires cursor.anchor <= |doc| && cursor.position <= |doc|
    requires parent != "" && !(isDirty && dirtyAfterSave)
    ensures var r := ExtractText(true, Some(parent), Editor.SelectedTextAndOffsets(doc, cursor), isDirty, dirtyAfterSave);
      && (cursor.HasSelection() ==>
            && r == Extract(parent, doc[cursor.SelectionStart()..cursor.SelectionEnd()],
                            cursor.SelectionStart(), cursor.SelectionEnd() - 1,
                            ChildTitle(doc[cursor.SelectionStart()..cursor.SelectionEnd()]))
            && Editor.HighlightSpan(Some(r.startChar), Some(r.endChar), |doc|)
                 == Some((cursor.SelectionStart(), cursor.SelectionEnd())))
      && (!cursor.HasSelection() ==> r == Inform(SelectTextFirst))
  {
    if cursor.HasSelection() {
      Editor.SelectionRoundTrip(doc, cursor);
      assert |doc[cursor.SelectionStart()..cursor.SelectionEnd()]| > 0;
    }
  }

  // ---------------------------------------------------------------------------
  // title edits

  /** What `handle_topic_title_changed` does with an edited title. */
  datatype TitleChangeAction =
    | NoCollection
    | Unchanged
    | ChangeTitle(topicId: Id, oldTitle: string, newTitle: string)

  /** `handle_topic_title_changed`: a command only with a collection open and a title that differs. */
  function TitleChange(collectionOpen: bool, topicId: Id, oldTitle: string, newTitle: string): (r: TitleChangeAction)
    ensures r.ChangeTitle? <==> collectionOpen && oldTitle != newTitle
    ensures r.ChangeTitle? ==> r == ChangeTitle(topicId, oldTitle, newTitle)
    ensures collectionOpen && oldTitle == newTitle ==> r == Unchanged
  {
    if !collectionOpen then NoCollection
    else if oldTitle == newTitle then Unchanged
    else ChangeTitle(topicId, oldTitle, newTitle)
  }
}
