/**
 * The extraction offset convention of src/topic_editor_widget.py. A
 * selection is reported with an inclusive end, an extraction is highlighted
 * over the half-open span one past that end, and the highlights of a topic
 * are re-applied from the store. The document is its plain text; the
 * highlight is the set of character positions carrying the extraction
 * background.
 */
module Editor {
  import opened Wrappers
  import DataManager

  type Id = DataManager.Id

  /** A text cursor: the selection runs between the anchor and the position. */
  datatype Cursor = Cursor(anchor: nat, position: nat) {
    predicate HasSelection() { anchor != position }
    function SelectionStart(): nat { if anchor < position then anchor else position }
    function SelectionEnd(): nat { if anchor < position then position else anchor }
  }

  /** What `get_selected_text_and_offsets` returns. */
  datatype SelectionInfo = SelectionInfo(text: Option<string>, start: int, end: int)

  /** `get_selected_text_and_offsets`: `(None, -1, -1)` without a selection, else the text and inclusive offsets. */
  function SelectedTextAndOffsets(doc: string, c: Cursor): SelectionInfo
    requires c.anchor <= |doc| && c.position <= |doc|
  {
    if !c.HasSelection() then SelectionInfo(None, -1, -1)
    else SelectionInfo(Some(doc[c.SelectionStart()..c.SelectionEnd()]), c.SelectionStart(), c.SelectionEnd() - 1)
  }

  /** The range check at the top of `apply_extraction_highlight`; a missing offset is `None`. */
  predicate ValidRange(start: Option<int>, end: Option<int>, docLen: nat) {
    start.Some? && end.Some? && 0 <= start.value && start.value <= end.value && end.value < docLen
  }

  /**
   * The span `apply_extraction_highlight` selects, as written: `None` when
   * it skips, else `(from, to)` with `to` exclusive, including the clamping
   * of `to` to the document length. A range that passes the check is
   * highlighted over `[start, end + 1)`, which lies inside the document, so
   * the clamping branch never changes the span; a range that fails the
   * check is not highlighted at all.
   */
  function HighlightSpan(start: Option<int>, end: Option<int>, docLen: nat): (r: Option<(int, int)>)
    ensures ValidRange(start, end, docLen) ==> end.value + 1 <= docLen && r == Some((start.value, end.value + 1))
    ensures !ValidRange(start, end, docLen) ==> r == None
  {
    if start.None? || end.None? || start.value < 0 || end.value < start.value || end.value >= docLen then None
    else
      var s := start.value;
      var selectionEnd := end.value + 1;
      if selectionEnd > docLen then
        var clamped := docLen;
        if s >= clamped && docLen > 0 then None
        else if docLen == 0 && s == 0 && clamped == 0 then Some((s, clamped))
        else if s >= clamped then None
        else Some((s, clamped))
      else Some((s, selectionEnd))
  }

  /** Selecting `[s, e)` and feeding the reported offsets back highlights exactly `[s, e)`. */
  lemma SelectionRoundTrip(doc: string, c: Cursor)
    requires c.anchor <= |doc| && c.position <= |doc|
    requires c.HasSelection()
    ensures var info := SelectedTextAndOffsets(doc, c);
      && info.text == Some(doc[c.SelectionStart()..c.SelectionEnd()])
      && info.end == c.SelectionEnd() - 1
      && HighlightSpan(Some(info.start), Some(info.end), |doc|) == Some((c.SelectionStart(), c.SelectionEnd()))
  {
  }

  /** Without a selection the offsets are -1, which the range check turns away. */
  lemma NoSelectionNoHighlight(doc: string, c: Cursor)
    requires c.anchor <= |doc| && c.position <= |doc|
    requires !c.HasSelection()
    ensures SelectedTextAndOffsets(doc, c) == SelectionInfo(None, -1, -1)
    ensures HighlightSpan(Some(-1), Some(-1), |doc|) == None
  {
  }

  /** Position `p` lies in the half-open span `[from, to)`. */
  predicate Covers(from: int, to: int, p: int) { from <= p < to }

  /** The character positions of a span. */
  function Positions(span: Option<(int, int)>): (r: set<int>)
    ensures span.Some? ==> forall p :: p in r <==> Covers(span.value.0, span.value.1, p)
    ensures span.None? ==> r == {}
  {
    if span.None? then {} else set p: int | span.value.0 <= p < span.value.1 && Covers(span.value.0, span.value.1, p)
  }

  /** The positions highlighted by applying each extraction of `entries` in turn. */
  function HighlightsOf(entries: seq<DataManager.ExtractionEntry>, docLen: nat): set<int>
    decreases |entries|
  {
    if entries == [] then {}
    else
      var e := entries[|entries| - 1];
      HighlightsOf(entries[..|entries| - 1], docLen) + Positions(HighlightSpan(Some(e.startChar), Some(e.endChar), docLen))
  }

  /** A position is highlighted exactly when some entry's valid span covers it; the order of the entries does not matter. */
  lemma {:induction false} HighlightsOfCover(entries: seq<DataManager.ExtractionEntry>, docLen: nat, p: int)
    ensures p in HighlightsOf(entries, docLen) <==>
      exists k :: 0 <= k < |entries| && ValidRange(Some(entries[k].startChar), Some(entries[k].endChar), docLen)
                  && entries[k].startChar <= p <= entries[k].endChar
    decreases |entries|
  {
    if entries != [] {
      var init, e := entries[..|entries| - 1], entries[|entries| - 1];
      HighlightsOfCover(init, docLen, p);
      if p in HighlightsOf(init, docLen) {
        var k :| 0 <= k < |init| && ValidRange(Some(init[k].startChar), Some(init[k].endChar), docLen)
                 && init[k].startChar <= p <= init[k].endChar;
        assert entries[k] == init[k];
      }
      if exists k :: 0 <= k < |entries| && ValidRange(Some(entries[k].startChar), Some(entries[k].endChar), docLen)
                     && entries[k].startChar <= p <= entries[k].endChar {
        var k :| 0 <= k < |entries| && ValidRange(Some(entries[k].startChar), Some(entries[k].endChar), docLen)
                 && entries[k].startChar <= p <= entries[k].endChar;
        if k < |init| { assert init[k] == entries[k]; }
      }
    }
  }

  class TopicEditor {
    /** The document's plain text. */
    var text: string
    var currentTopicId: Option<Id>
    /** The positions carrying the extraction background. */
    var highlighted: set<int>

    constructor ()
      ensures text == "" && currentTopicId == None && highlighted == {}
    {
      text, currentTopicId, highlighted := "", None, {};
    }

    /** `apply_extraction_highlight`: merges the background into the span it selects, if any. */
    method ApplyExtractionHighlight(start: Option<int>, end: Option<int>)
      modifies this
      ensures highlighted == old(highlighted) + Positions(HighlightSpan(start, end, |text|))
      ensures text == old(text) && currentTopicId == old(currentTopicId)
    {
      var span := HighlightSpan(start, end, |text|);
      if span.Some? {
        highlighted := highlighted + Positions(span);
      }
    }

    /** The positions of the valid spans of the parent's stored extractions. */
    function StoredHighlights(store: DataManager.TopicStore, parent: Id): set<int>
      reads this, store
    {
      set p: int | 0 <= p < |text| && StoredCover(store, parent, p)
    }

    /** Some stored extraction of `parent` has a valid span covering `p`. */
    predicate StoredCover(store: DataManager.TopicStore, parent: Id, p: int)
      reads this, store
    {
      exists id :: (&& id in store.extractions
                    && store.extractions[id].parentTopicId == parent
                    && ValidRange(Some(store.extractions[id].startChar), Some(store.extractions[id].endChar), |text|)
                    && store.extractions[id].startChar <= p <= store.extractions[id].endChar)
    }

    /**
     * `_apply_existing_highlights`: nothing without a current topic;
     * otherwise one highlight per extraction the store returns for it
     * (none when the store fails). Every extraction of the topic with a
     * valid span ends up highlighted.
     */
    method ApplyExistingHighlights(store: DataManager.TopicStore, fails: bool)
      modifies this
      ensures !Truthy(old(currentTopicId)) ==> highlighted == old(highlighted)
      ensures Truthy(old(currentTopicId)) && !fails ==>
                highlighted == old(highlighted) + StoredHighlights(store, old(currentTopicId).value)
      ensures Truthy(old(currentTopicId)) && fails ==> highlighted == old(highlighted)
      ensures text == old(text) && currentTopicId == old(currentTopicId)
    {
      if !Truthy(currentTopicId) {
        return;
      }
      var extractions := store.GetExtractionsForParent(currentTopicId.value, fails);
      var i := 0;
      while i < |extractions|
        invariant 0 <= i <= |extractions|
        invariant text == old(text) && currentTopicId == old(currentTopicId)
        invariant highlighted == old(highlighted) + HighlightsOf(extractions[..i], |text|)
      {
        var extr := extractions[i];
        assert extractions[..i + 1][..i] == extractions[..i];
        ApplyExtractionHighlight(Some(extr.startChar), Some(extr.endChar));
        i := i + 1;
      }
      assert extractions[..|extractions|] == extractions;
      if !fails {
        StoredHighlightsFromList(store, currentTopicId.value, extractions, |text|);
      }
    }

    /** The highlights applied from the store's answer are exactly the stored ones. */
    lemma StoredHighlightsFromList(store: DataManager.TopicStore, parent: Id,
                                   extractions: seq<DataManager.ExtractionEntry>, docLen: nat)
      requires docLen == |text|
      requires DataManager.EntriesOf(extractions, store.extractions, parent)
      requires multiset(DataManager.EntryIds(extractions)) == multiset(store.ExtractionsOf(parent))
      ensures HighlightsOf(extractions, docLen) == StoredHighlights(store, parent)
    {
      forall p | p in HighlightsOf(extractions, docLen) ensures p in StoredHighlights(store, parent) {
        ListedIsStored(store, parent, extractions, docLen, p);
      }
      forall p | p in StoredHighlights(store, parent) ensures p in HighlightsOf(extractions, docLen) {
        StoredIsListed(store, parent, extractions, docLen, p);
      }
    }

    lemma ListedIsStored(store: DataManager.TopicStore, parent: Id,
                         extractions: seq<DataManager.ExtractionEntry>, docLen: nat, p: int)
      requires docLen == |text|
      requires DataManager.EntriesOf(extractions, store.extractions, parent)
      requires p in HighlightsOf(extractions, docLen)
      ensures p in StoredHighlights(store, parent)
    {
      HighlightsOfCover(extractions, docLen, p);
      var k :| 0 <= k < |extractions| && ValidRange(Some(extractions[k].startChar), Some(extractions[k].endChar), docLen)
               && extractions[k].startChar <= p <= extractions[k].endChar;
      var e := extractions[k];
      assert e.id in store.extractions && DataManager.EntryMatches(e, store.extractions[e.id], parent);
      assert StoredCover(store, parent, p);
    }

    lemma StoredIsListed(store: DataManager.TopicStore, parent: Id,
                         extractions: seq<DataManager.ExtractionEntry>, docLen: nat, p: int)
      requires docLen == |text|
      requires DataManager.EntriesOf(extractions, store.extractions, parent)
      requires multiset(DataManager.EntryIds(extractions)) == multiset(store.ExtractionsOf(parent))
      requires p in StoredHighlights(store, parent)
      ensures p in HighlightsOf(extractions, docLen)
    {
      var ids := DataManager.EntryIds(extractions);
      var id :| (&& id in store.extractions && store.extractions[id].parentTopicId == parent
                 && ValidRange(Some(store.extractions[id].startChar), Some(store.extractions[id].endChar), |text|)
                 && store.extractions[id].startChar <= p <= store.extractions[id].endChar);
      assert id in store.ExtractionsOf(parent);
      assert id in multiset(ids);
      var k :| 0 <= k < |ids| && ids[k] == id;
      assert DataManager.EntryMatches(extractions[k], store.extractions[id], parent);
      HighlightsOfCover(extractions, docLen, p);
    }
  }
}
