/**
 * The topic store of src/data_manager.py: the `topics` and `extractions`
 * tables and the `schema_migrations` ledger of the SQLite database, and the
 * directory of per-topic text files, all held in memory. Fresh ids
 * (`uuid.uuid4()`), timestamps (`datetime.now()`) and every SQLite or file
 * failure are parameters of the operations.
 */
module DataManager {
  import opened Wrappers
  import opened Text

  type Id = string

  const InitialTitleLength: nat := 70
  const TextFilesDir: string := "iromo_data/text_files"
  const UntitledTopic: string := "Untitled Topic"
  const Ellipsis: string := "..."

  /**
   * The value the `display_order` column takes when `create_topic` leaves it
   * out of its INSERT. The schema script that fixes it is not part of this
   * model; 0 stands for it.
   */
  const DefaultDisplayOrder: int := 0

  /** A row of the `topics` table, keyed by its id. Timestamps are opaque, ordered integers. */
  datatype TopicRow = TopicRow(
    parentId: Option<Id>,
    title: string,
    textFileUuid: string,
    createdAt: int,
    updatedAt: int,
    displayOrder: int)

  /** A row of the `extractions` table, keyed by its id. The span is inclusive at both ends. */
  datatype ExtractionRow = ExtractionRow(
    parentTopicId: Id,
    childTopicId: Id,
    startChar: int,
    endChar: int)

  /** A row of `get_topic_hierarchy`'s result: `id, title, parent_id, created_at`. */
  datatype HierarchyEntry = HierarchyEntry(id: Id, title: string, parentId: Option<Id>, createdAt: int)

  /** A row of `get_extractions_for_parent`'s result. */
  datatype ExtractionEntry = ExtractionEntry(id: Id, childTopicId: Id, startChar: int, endChar: int)

  /** Where `create_topic` can fail: writing the text file, or the INSERT and commit. */
  datatype CreateFault = CreateOk | CreateWriteFails | CreateInsertFails

  /** Where `save_topic_content` can fail: writing the file, or the UPDATE and commit after it. */
  datatype SaveFault = SaveOk | SaveWriteFails | SaveUpdateFails

  // ---------------------------------------------------------------------------
  // Initial titles

  /** The first line holding something other than whitespace, or the whole text if there is none. */
  function FirstMeaningfulLine(text: string): string {
    var lines := NonBlank(Lines(text));
    if lines != [] then lines[0] else text
  }

  /** `_generate_initial_title`. */
  function GenerateInitialTitle(text: string): string {
    if text == "" then UntitledTopic
    else
      var line := FirstMeaningfulLine(text);
      if |line| > InitialTitleLength then line[..InitialTitleLength] + Ellipsis else line
  }

  /** Cutting a text at a whitespace character leaves two blank pieces exactly when the text is blank. */
  lemma BlankAround(s: string, i: nat)
    requires i < |s| && IsSpace(s[i])
    ensures IsBlank(s) <==> IsBlank(s[..i]) && IsBlank(s[i + 1..])
  {
    if IsBlank(s[..i]) && IsBlank(s[i + 1..]) {
      forall k | 0 <= k < |s| ensures IsSpace(s[k]) {
        if k < i { assert s[k] == s[..i][k]; } else if k > i { assert s[k] == s[i + 1..][k - i - 1]; }
      }
    }
  }

  /** Every piece between line breaks is blank exactly when the whole text is. */
  lemma LinesAllBlank(s: string)
    ensures IsBlank(s) ==> forall k :: 0 <= k < |Lines(s)| ==> IsBlank(Lines(s)[k])
    ensures (forall k :: 0 <= k < |Lines(s)| ==> IsBlank(Lines(s)[k])) ==> IsBlank(s)
  {
    BlankLines(s);
    AllBlankIndex(Lines(s));
  }

  lemma {:induction false} BlankLines(s: string)
    ensures AllBlank(Lines(s)) == IsBlank(s)
    decreases |s|
  {
    var i := FirstBreak(s);
    if i == -1 {
      assert Lines(s) == [s] + [];
      AllBlankCons(s, []);
    } else {
      var tail := s[i + 1..];
      LinesAt(s, i);
      AllBlankCons(s[..i], Lines(tail));
      BlankLines(tail);
      BlankAround(s, i);
    }
  }

  /**
   * The shape of a generated title: "Untitled Topic" for empty text;
   * otherwise the first non-blank line (preceded only by blank lines, free of
   * line breaks), or the whole text when all of it is whitespace, kept whole
   * up to 70 characters and cut to 70 characters plus "..." beyond that.
   */
  lemma InitialTitleShape(text: string)
    ensures text == "" ==> GenerateInitialTitle(text) == UntitledTopic
    ensures |GenerateInitialTitle(text)| <= InitialTitleLength + |Ellipsis|
    ensures text != "" ==>
      var line, title := FirstMeaningfulLine(text), GenerateInitialTitle(text);
      && (|line| <= InitialTitleLength ==> title == line)
      && (|line| > InitialTitleLength ==>
            |title| == InitialTitleLength + |Ellipsis| && title[..InitialTitleLength] == line[..InitialTitleLength]
            && title[InitialTitleLength..] == Ellipsis)
    ensures IsBlank(text) ==> FirstMeaningfulLine(text) == text
    ensures !IsBlank(text) ==>
      var line := FirstMeaningfulLine(text);
      && !IsBlank(line) && NoLineBreak(line)
      && exists i :: 0 <= i < |Lines(text)| && Lines(text)[i] == line
                     && forall k :: 0 <= k < i ==> IsBlank(Lines(text)[k])
  {
    LinesAllBlank(text);
    var ls := Lines(text);
    if !IsBlank(text) {
      NonBlankHead(ls);
      var line := NonBlank(ls)[0];
      var i :| 0 <= i < |ls| && ls[i] == line && forall k :: 0 <= k < i ==> IsBlank(ls[k]);
      assert NoLineBreak(ls[i]);
    } else {
      assert forall k :: 0 <= k < |ls| ==> IsBlank(ls[k]);
      assert NonBlank(ls) == [];
    }
  }

  /** `custom_title if custom_title else _generate_initial_title(text_content)`. */
  function ChooseTitle(customTitle: Option<string>, textContent: string): string {
    if Truthy(customTitle) then customTitle.value else GenerateInitialTitle(textContent)
  }

  // ---------------------------------------------------------------------------
  // Text file paths

  /** `_get_topic_text_file_path`: `os.path.join(TEXT_FILES_DIR, f"{uuid}.txt")`. */
  function TextFilePath(textFileUuid: string): string {
    TextFilesDir + "/" + textFileUuid + ".txt"
  }

  /** Distinct text file ids never share a file. */
  lemma TextFilePathInjective(u: string, v: string)
    requires TextFilePath(u) == TextFilePath(v)
    ensures u == v
  {
    var n := |TextFilesDir + "/"|;
    assert |u| == |v|;
    assert u == TextFilePath(u)[n..n + |u|];
    assert v == TextFilePath(v)[n..n + |v|];
  }

  // ---------------------------------------------------------------------------
  // Orders used by the queries

  /** SQLite's order on a nullable TEXT column: NULL first, then by code points. */
  predicate ParentLeq(a: Option<Id>, b: Option<Id>) {
    a.None? || (b.Some? && StrLeq(a.value, b.value))
  }

  /** `ORDER BY parent_id, display_order, created_at`. */
  predicate RowLeq(a: TopicRow, b: TopicRow) {
    if a.parentId != b.parentId then ParentLeq(a.parentId, b.parentId)
    else if a.displayOrder != b.displayOrder then a.displayOrder < b.displayOrder
    else a.createdAt <= b.createdAt
  }

  lemma RowLeqTotal(a: TopicRow, b: TopicRow)
    ensures RowLeq(a, b) || RowLeq(b, a)
  {
    if a.parentId != b.parentId && a.parentId.Some? && b.parentId.Some? {
      StrLeqTotal(a.parentId.value, b.parentId.value);
    }
  }

  lemma RowLeqTrans(a: TopicRow, b: TopicRow, c: TopicRow)
    requires RowLeq(a, b) && RowLeq(b, c)
    ensures RowLeq(a, c)
  {
    var pa, pb, pc := a.parentId, b.parentId, c.parentId;
    if pa.Some? && pb.Some? && pc.Some? {
      if pa != pb && pb != pc {
        StrLeqTrans(pa.value, pb.value, pc.value);
        if pa == pc { StrLeqAntisym(pa.value, pb.value); }
      }
    }
  }

  predicate SortedRows(ids: seq<Id>, t: map<Id, TopicRow>)
    requires forall i :: 0 <= i < |ids| ==> ids[i] in t
  {
    forall i, j :: 0 <= i < j < |ids| ==> RowLeq(t[ids[i]], t[ids[j]])
  }

  function InsertRow(k: Id, ids: seq<Id>, t: map<Id, TopicRow>): (r: seq<Id>)
    requires k in t && forall i :: 0 <= i < |ids| ==> ids[i] in t
    ensures |r| == |ids| + 1 && forall i :: 0 <= i < |r| ==> r[i] in t
  {
    if ids == [] || RowLeq(t[k], t[ids[0]]) then [k] + ids else [ids[0]] + InsertRow(k, ids[1..], t)
  }

  lemma InsertRowSorted(k: Id, ids: seq<Id>, t: map<Id, TopicRow>)
    requires k in t && forall i :: 0 <= i < |ids| ==> ids[i] in t
    requires SortedRows(ids, t)
    ensures SortedRows(InsertRow(k, ids, t), t)
    ensures multiset(InsertRow(k, ids, t)) == multiset(ids) + multiset{k}
  {
    InsertRowOrdered(k, ids, t);
    InsertRowPerm(k, ids, t);
  }

  lemma {:induction false} InsertRowElems(k: Id, ids: seq<Id>, t: map<Id, TopicRow>)
    requires k in t && forall i :: 0 <= i < |ids| ==> ids[i] in t
    ensures forall j :: 0 <= j < |InsertRow(k, ids, t)| ==> InsertRow(k, ids, t)[j] == k || InsertRow(k, ids, t)[j] in ids
  {
    if !(ids == [] || RowLeq(t[k], t[ids[0]])) {
      InsertRowElems(k, ids[1..], t);
    }
  }

  lemma {:induction false} InsertRowOrdered(k: Id, ids: seq<Id>, t: map<Id, TopicRow>)
    requires k in t && forall i :: 0 <= i < |ids| ==> ids[i] in t
    requires SortedRows(ids, t)
    ensures SortedRows(InsertRow(k, ids, t), t)
  {
    if ids == [] || RowLeq(t[k], t[ids[0]]) {
      forall j | 1 < j < |ids| + 1 ensures RowLeq(t[k], t[([k] + ids)[j]]) {
        RowLeqTrans(t[k], t[ids[0]], t[ids[j - 1]]);
      }
    } else {
      var rest := ids[1..];
      InsertRowOrdered(k, rest, t);
      InsertRowElems(k, rest, t);
      RowLeqTotal(t[k], t[ids[0]]);
      var r := InsertRow(k, rest, t);
      forall j | 0 <= j < |r| ensures RowLeq(t[ids[0]], t[r[j]]) {
        if r[j] != k {
          var m :| 0 <= m < |rest| && rest[m] == r[j];
          assert ids[m + 1] == r[j];
        }
      }
      assert InsertRow(k, ids, t) == [ids[0]] + r;
    }
  }

  lemma {:induction false} InsertRowPerm(k: Id, ids: seq<Id>, t: map<Id, TopicRow>)
    requires k in t && forall i :: 0 <= i < |ids| ==> ids[i] in t
    ensures multiset(InsertRow(k, ids, t)) == multiset(ids) + multiset{k}
  {
    if !(ids == [] || RowLeq(t[k], t[ids[0]])) {
      InsertRowPerm(k, ids[1..], t);
      assert ids == [ids[0]] + ids[1..];
    }
  }

  predicate SortedByStart(s: seq<ExtractionEntry>) {
    forall i, j :: 0 <= i < j < |s| ==> s[i].startChar <= s[j].startChar
  }

  function InsertByStart(e: ExtractionEntry, s: seq<ExtractionEntry>): seq<ExtractionEntry> {
    if s == [] || e.startChar <= s[0].startChar then [e] + s else [s[0]] + InsertByStart(e, s[1..])
  }

  lemma InsertByStartSorted(e: ExtractionEntry, s: seq<ExtractionEntry>)
    requires SortedByStart(s)
    ensures SortedByStart(InsertByStart(e, s))
    ensures multiset(InsertByStart(e, s)) == multiset(s) + multiset{e}
  {
    InsertByStartOrdered(e, s);
    InsertByStartPerm(e, s);
  }

  lemma {:induction false} InsertByStartElems(e: ExtractionEntry, s: seq<ExtractionEntry>)
    ensures forall j :: 0 <= j < |InsertByStart(e, s)| ==> InsertByStart(e, s)[j] == e || InsertByStart(e, s)[j] in s
  {
    if !(s == [] || e.startChar <= s[0].startChar) {
      InsertByStartElems(e, s[1..]);
    }
  }

  lemma {:induction false} InsertByStartOrdered(e: ExtractionEntry, s: seq<ExtractionEntry>)
    requires SortedByStart(s)
    ensures SortedByStart(InsertByStart(e, s))
  {
    if !(s == [] || e.startChar <= s[0].startChar) {
      var rest := s[1..];
      InsertByStartOrdered(e, rest);
      InsertByStartElems(e, rest);
      var r := InsertByStart(e, rest);
      forall j | 0 <= j < |r| ensures s[0].startChar <= r[j].startChar {
        if r[j] != e {
          var m :| 0 <= m < |rest| && rest[m] == r[j];
          assert s[m + 1] == r[j];
        }
      }
      assert InsertByStart(e, s) == [s[0]] + r;
    }
  }

  lemma {:induction false} InsertByStartPerm(e: ExtractionEntry, s: seq<ExtractionEntry>)
    ensures multiset(InsertByStart(e, s)) == multiset(s) + multiset{e}
  {
    if !(s == [] || e.startChar <= s[0].startChar) {
      InsertByStartPerm(e, s[1..]);
      assert s == [s[0]] + s[1..];
    }
  }

  function EntryIds(s: seq<ExtractionEntry>): (r: seq<Id>)
    ensures |r| == |s| && forall i :: 0 <= i < |s| ==> r[i] == s[i].id
  {
    if s == [] then [] else [s[0].id] + EntryIds(s[1..])
  }

  function HierarchyIds(s: seq<HierarchyEntry>): (r: seq<Id>)
    ensures |r| == |s| && forall i :: 0 <= i < |s| ==> r[i] == s[i].id
  {
    if s == [] then [] else [s[0].id] + HierarchyIds(s[1..])
  }

  lemma EntryIdsInsert(e: ExtractionEntry, s: seq<ExtractionEntry>)
    ensures multiset(EntryIds(InsertByStart(e, s))) == multiset(EntryIds(s)) + multiset{e.id}
  {
    if !(s == [] || e.startChar <= s[0].startChar) {
      EntryIdsInsert(e, s[1..]);
      assert EntryIds(s) == [s[0].id] + EntryIds(s[1..]);
      assert EntryIds(InsertByStart(e, s)) == [s[0].id] + EntryIds(InsertByStart(e, s[1..]));
    } else {
      assert EntryIds(InsertByStart(e, s)) == [e.id] + EntryIds(s);
    }
  }

  lemma MultisetAddFresh<T>(a: set<T>, k: T)
    requires k !in a
    ensures multiset(a + {k}) == multiset(a) + multiset{k}
  {
    assert forall y :: multiset(a + {k})[y] == (multiset(a) + multiset{k})[y];
  }

  /** Taking `k` out of the keys still to visit adds it to the visited part of `matching`, if it is there. */
  lemma VisitKey<T>(matching: set<T>, remaining: set<T>, k: T)
    requires k in remaining
    ensures k in matching ==> multiset(matching - (remaining - {k})) == multiset(matching - remaining) + multiset{k}
    ensures k !in matching ==> matching - (remaining - {k}) == matching - remaining
  {
    if k in matching {
      assert matching - (remaining - {k}) == (matching - remaining) + {k};
      MultisetAddFresh(matching - remaining, k);
    }
  }

  /** Each entry is the stored extraction of its id, and that extraction belongs to `parent`. */
  predicate EntriesOf(r: seq<ExtractionEntry>, x: map<Id, ExtractionRow>, parent: Id) {
    forall i :: 0 <= i < |r| ==> r[i].id in x && EntryMatches(r[i], x[r[i].id], parent)
  }

  predicate EntryMatches(e: ExtractionEntry, row: ExtractionRow, parent: Id) {
    row.parentTopicId == parent && e == ExtractionEntry(e.id, row.childTopicId, row.startChar, row.endChar)
  }

  lemma InsertEntry(e: ExtractionEntry, r: seq<ExtractionEntry>, x: map<Id, ExtractionRow>, parent: Id)
    requires e.id in x && EntryMatches(e, x[e.id], parent)
    requires EntriesOf(r, x, parent) && SortedByStart(r)
    ensures EntriesOf(InsertByStart(e, r), x, parent) && SortedByStart(InsertByStart(e, r))
    ensures multiset(EntryIds(InsertByStart(e, r))) == multiset(EntryIds(r)) + multiset{e.id}
  {
    InsertByStartSorted(e, r);
    EntryIdsInsert(e, r);
    var r' := InsertByStart(e, r);
    forall i | 0 <= i < |r'| ensures r'[i].id in x && EntryMatches(r'[i], x[r'[i].id], parent) {
      assert r'[i] in multiset(r');
      if r'[i] != e {
        assert r'[i] in multiset(r);
        var m :| 0 <= m < |r| && r[m] == r'[i];
      }
    }
  }

  // ---------------------------------------------------------------------------
  // Migrations

  /** What `_apply_migrations` did: whether it raised (naming the script), the ledger after it, and the scripts it ran, in order. */
  datatype MigrationResult = MigrationResult(outcome: Outcome<string>, ledger: set<string>, executed: seq<string>)

  /**
   * The migration loop over `names` (already sorted): `applied` is the snapshot
   * of the ledger read before the loop, `ledger` the live table, `failing` the
   * scripts whose reading or execution raises. A script's name is recorded
   * only after it ran; recording a name already in the table is a
   * primary-key violation and fails like a script.
   */
  function MigrationRun(names: seq<string>, applied: set<string>, ledger: set<string>, failing: set<string>): MigrationResult
  {
    if names == [] then MigrationResult(Pass, ledger, [])
    else if names[0] in applied then MigrationRun(names[1..], applied, ledger, failing)
    else if names[0] in failing || names[0] in ledger then MigrationResult(Fail(names[0]), ledger, [names[0]])
    else
      var rest := MigrationRun(names[1..], applied, ledger + {names[0]}, failing);
      rest.(executed := [names[0]] + rest.executed)
  }

  /** A run result with the scripts of `ex` run before it. */
  function AfterExecuted(ex: seq<string>, r: MigrationResult): MigrationResult {
    r.(executed := ex + r.executed)
  }

  /** One step of the migration loop: a skipped name, a failing one, or one that runs and is recorded. */
  lemma MigrationStep(names: seq<string>, applied: set<string>, ledger: set<string>, failing: set<string>)
    requires names != []
    ensures names[0] in applied ==> MigrationRun(names, applied, ledger, failing) == MigrationRun(names[1..], applied, ledger, failing)
    ensures names[0] !in applied && (names[0] in failing || names[0] in ledger) ==>
              MigrationRun(names, applied, ledger, failing) == MigrationResult(Fail(names[0]), ledger, [names[0]])
    ensures names[0] !in applied && !(names[0] in failing || names[0] in ledger) ==>
              MigrationRun(names, applied, ledger, failing)
              == AfterExecuted([names[0]], MigrationRun(names[1..], applied, ledger + {names[0]}, failing))
  {
  }

  lemma AfterExecutedTwice(a: seq<string>, b: seq<string>, r: MigrationResult)
    ensures AfterExecuted(a, AfterExecuted(b, r)) == AfterExecuted(a + b, r)
  {
    assert a + (b + r.executed) == (a + b) + r.executed;
  }

  /** The ledger only grows, and only by names of the list that were not applied before and whose scripts succeeded. */
  lemma {:induction false} MigrationLedgerGrows(names: seq<string>, applied: set<string>, ledger: set<string>, failing: set<string>)
    ensures var r := MigrationRun(names, applied, ledger, failing);
      && ledger <= r.ledger
      && forall n :: n in r.ledger && n !in ledger ==> n in names && n !in applied && n !in failing
  {
    if names != [] {
      if names[0] in applied {
        MigrationLedgerGrows(names[1..], applied, ledger, failing);
      } else if !(names[0] in failing || names[0] in ledger) {
        MigrationLedgerGrows(names[1..], applied, ledger + {names[0]}, failing);
      }
    }
  }

  /** A run that does not raise records every name of the list that was not applied before, and nothing else. */
  lemma {:induction false} MigrationPassRecordsAll(names: seq<string>, applied: set<string>, ledger: set<string>, failing: set<string>)
    requires MigrationRun(names, applied, ledger, failing).outcome == Pass
    ensures forall n :: n in MigrationRun(names, applied, ledger, failing).ledger <==>
                          n in ledger || (n in names && n !in applied)
    ensures forall n :: n in names && n !in applied ==> n !in failing
    ensures MigrationRun(names, applied, ledger, failing).executed == Pending(names, applied)
  {
    if names != [] {
      if names[0] in applied {
        MigrationPassRecordsAll(names[1..], applied, ledger, failing);
      } else {
        MigrationPassRecordsAll(names[1..], applied, ledger + {names[0]}, failing);
      }
      assert forall n :: n in names <==> n == names[0] || n in names[1..];
    }
  }

  /** The names of the list that are not in `applied`, in list order: the scripts the loop reaches for. */
  function Pending(names: seq<string>, applied: set<string>): (p: seq<string>)
    ensures forall n :: n in p <==> n in names && n !in applied
  {
    if names == [] then []
    else (if names[0] in applied then [] else [names[0]]) + Pending(names[1..], applied)
  }

  /**
   * The run `r` over `names` raised at index `i`: `names[i]` is the first
   * pending script that fails (or whose name is already recorded); every
   * pending script ahead of it ran and was recorded, none after it ran, and
   * its own name was not recorded.
   */
  ghost predicate HaltedAt(names: seq<string>, applied: set<string>, ledger: set<string>, failing: set<string>,
                     r: MigrationResult, i: int)
  {
    && 0 <= i < |names| && r.outcome == Fail(names[i]) && names[i] !in applied
    && (names[i] in failing || names[i] in r.ledger)
    && RanBefore(names, applied, ledger, failing, i)
    && LedgerAfter(names, applied, ledger, r.ledger, i)
    && r.executed == Pending(names[..i + 1], applied)
  }

  /** Every pending script ahead of index `i` neither fails nor was recorded already. */
  ghost predicate RanBefore(names: seq<string>, applied: set<string>, ledger: set<string>, failing: set<string>, i: int)
    requires i <= |names|
  {
    forall j :: 0 <= j < i && names[j] !in applied ==> names[j] !in failing && names[j] !in ledger
  }

  /** The ledger `rl` is `ledger` plus the pending names ahead of index `i`. */
  ghost predicate LedgerAfter(names: seq<string>, applied: set<string>, ledger: set<string>, rl: set<string>, i: int)
    requires 0 <= i <= |names|
  {
    forall n :: n in rl <==> n in ledger || (n in names[..i] && n !in applied)
  }

  /** A run that raises has halted at some index of the list. */
  lemma {:induction false} MigrationFailureHalts(names: seq<string>, applied: set<string>, ledger: set<string>, failing: set<string>)
    requires MigrationRun(names, applied, ledger, failing).outcome.Fail?
    ensures exists i :: HaltedAt(names, applied, ledger, failing, MigrationRun(names, applied, ledger, failing), i)
  {
    var r := MigrationRun(names, applied, ledger, failing);
    if names[0] in applied || !(names[0] in failing || names[0] in ledger) {
      var l' := if names[0] in applied then ledger else ledger + {names[0]};
      MigrationFailureHalts(names[1..], applied, l', failing);
      var i :| HaltedAt(names[1..], applied, l', failing, MigrationRun(names[1..], applied, l', failing), i);
      HaltedStep(names, applied, ledger, failing, i);
    } else {
      assert names[..0] == [] && names[..1] == [names[0]] && names[..1][1..] == [];
      assert HaltedAt(names, applied, ledger, failing, r, 0);
    }
  }

  /** Halting at `i` in the rest of the list, after the first name was skipped or ran, is halting at `i + 1`. */
  lemma HaltedStep(names: seq<string>, applied: set<string>, ledger: set<string>, failing: set<string>, i: int)
    requires names != [] && (names[0] in applied || !(names[0] in failing || names[0] in ledger))
    requires var l' := if names[0] in applied then ledger else ledger + {names[0]};
      HaltedAt(names[1..], applied, l', failing, MigrationRun(names[1..], applied, l', failing), i)
    ensures HaltedAt(names, applied, ledger, failing, MigrationRun(names, applied, ledger, failing), i + 1)
  {
    var l' := if names[0] in applied then ledger else ledger + {names[0]};
    var rest := MigrationRun(names[1..], applied, l', failing);
    var r := MigrationRun(names, applied, ledger, failing);
    assert r.outcome == rest.outcome && r.ledger == rest.ledger;
    assert r.executed == (if names[0] in applied then [] else [names[0]]) + rest.executed;
    assert names[i + 1] == names[1..][i];
    HaltedLedger(names, applied, ledger, l', r.ledger, i);
    HaltedBefore(names, applied, ledger, l', failing, i);
    PendingPrefix(names, applied, i + 1);
  }

  lemma HaltedLedger(names: seq<string>, applied: set<string>, ledger: set<string>, l': set<string>, rl: set<string>, i: int)
    requires names != [] && 0 <= i < |names| - 1
    requires l' == if names[0] in applied then ledger else ledger + {names[0]}
    requires LedgerAfter(names[1..], applied, l', rl, i)
    ensures LedgerAfter(names, applied, ledger, rl, i + 1)
  {
    assert names[..i + 1] == [names[0]] + names[1..][..i];
    forall n ensures n in rl <==> n in ledger || (n in names[..i + 1] && n !in applied) {
      assert n in names[..i + 1] <==> n == names[0] || n in names[1..][..i];
    }
  }

  lemma HaltedBefore(names: seq<string>, applied: set<string>, ledger: set<string>, l': set<string>, failing: set<string>, i: int)
    requires names != [] && 0 <= i < |names| - 1
    requires names[0] in applied || !(names[0] in failing || names[0] in ledger)
    requires l' == if names[0] in applied then ledger else ledger + {names[0]}
    requires RanBefore(names[1..], applied, l', failing, i)
    ensures RanBefore(names, applied, ledger, failing, i + 1)
  {
    forall k | 0 <= k < i + 1 && names[k] !in applied ensures names[k] !in failing && names[k] !in ledger {
      if k > 0 {
        assert names[k] == names[1..][k - 1];
      }
    }
  }

  /** The pending names of a non-empty prefix: the first name if pending, then those of the rest's prefix. */
  lemma PendingPrefix(names: seq<string>, applied: set<string>, j: nat)
    requires 0 < j < |names|
    ensures Pending(names[..j + 1], applied)
            == (if names[0] in applied then [] else [names[0]]) + Pending(names[1..][..j], applied)
  {
    assert names[..j + 1][0] == names[0] && names[..j + 1][1..] == names[1..][..j];
  }

  /** Scripts run in the order of the (sorted) list. */
  lemma {:induction false} MigrationRunsInOrder(names: seq<string>, applied: set<string>, ledger: set<string>, failing: set<string>)
    requires SortedStrings(names)
    ensures var ex := MigrationRun(names, applied, ledger, failing).executed;
      SortedStrings(ex) && forall k :: 0 <= k < |ex| ==> ex[k] in names && ex[k] !in applied
  {
    if names != [] {
      assert SortedStrings(names[1..]);
      if names[0] in applied {
        MigrationRunsInOrder(names[1..], applied, ledger, failing);
      } else if !(names[0] in failing || names[0] in ledger) {
        var l' := ledger + {names[0]};
        MigrationRunsInOrder(names[1..], applied, l', failing);
        var ex := MigrationRun(names[1..], applied, l', failing).executed;
        forall k | 0 <= k < |ex| ensures StrLeq(names[0], ex[k]) {
          var m :| 0 <= m < |names[1..]| && names[1..][m] == ex[k];
          assert names[m + 1] == ex[k];
        }
      }
    }
  }

  /** A second run over the same files, once the first did not raise, runs and records nothing. */
  lemma MigrationIdempotent(names: seq<string>, ledger: set<string>, failing: set<string>)
    requires MigrationRun(names, ledger, ledger, failing).outcome == Pass
    ensures var l := MigrationRun(names, ledger, ledger, failing).ledger;
      MigrationRun(names, l, l, failing) == MigrationResult(Pass, l, [])
  {
    MigrationPassRecordsAll(names, ledger, ledger, failing);
    var l := MigrationRun(names, ledger, ledger, failing).ledger;
    assert forall n :: n in names ==> n in l;
    MigrationAllApplied(names, l, failing);
  }

  lemma {:induction false} MigrationAllApplied(names: seq<string>, l: set<string>, failing: set<string>)
    requires forall n :: n in names ==> n in l
    ensures MigrationRun(names, l, l, failing) == MigrationResult(Pass, l, [])
  {
    if names != [] { MigrationAllApplied(names[1..], l, failing); }
  }

  // ---------------------------------------------------------------------------
  // The store

  class TopicStore {
    var topics: map<Id, TopicRow>
    var files: map<string, string>
    var extractions: map<Id, ExtractionRow>
    var ledger: set<string>

    /** A fresh collection: empty tables and no text files. */
    constructor ()
      ensures topics == map[] && files == map[] && extractions == map[] && ledger == {}
    {
      topics, files, extractions, ledger := map[], map[], map[], {};
    }

    /**
     * `get_topic_content`: the content of the topic's text file; `None` for
     * an unknown topic, a missing file, or a database or read error
     * (`readFails`).
     */
    function GetTopicContent(topicId: Id, readFails: bool): (content: Option<string>)
      reads this
      ensures content.Some? <==>
        !readFails && topicId in topics && TextFilePath(topics[topicId].textFileUuid) in files
      ensures content.Some? ==> content.value == files[TextFilePath(topics[topicId].textFileUuid)]
    {
      if readFails || topicId !in topics then None
      else
        var path := TextFilePath(topics[topicId].textFileUuid);
        if path in files then Some(files[path]) else None
    }

    /** `_apply_migrations` over the names of the migration files, in any order. */
    method ApplyMigrations(migrationFiles: seq<string>, failing: set<string>)
      returns (outcome: Outcome<string>, executed: seq<string>)
      modifies this`ledger
      ensures var r := MigrationRun(SortStrings(migrationFiles), old(ledger), old(ledger), failing);
        outcome == r.outcome && ledger == r.ledger && executed == r.executed
      ensures topics == old(topics) && files == old(files) && extractions == old(extractions)
    {
      outcome, executed := RunMigrations(SortStrings(migrationFiles), failing);
    }

    /** The loop of `_apply_migrations` over names already in order. */
    method RunMigrations(sorted: seq<string>, failing: set<string>)
      returns (outcome: Outcome<string>, executed: seq<string>)
      modifies this`ledger
      ensures var r := MigrationRun(sorted, old(ledger), old(ledger), failing);
        outcome == r.outcome && ledger == r.ledger && executed == r.executed
    {
      var applied := ledger;
      ghost var whole := MigrationRun(sorted, applied, applied, failing);
      executed := [];
      var i := 0;
      while i < |sorted|
        invariant 0 <= i <= |sorted|
        invariant AfterExecuted(executed, MigrationRun(sorted[i..], applied, ledger, failing)) == whole
      {
        var name := sorted[i];
        MigrationStep(sorted[i..], applied, ledger, failing);
        assert sorted[i..][0] == name && sorted[i..][1..] == sorted[i + 1..];
        if name !in applied {
          if name in failing || name in ledger {
            executed := executed + [name];
            outcome := Fail(name);
            return;
          }
          AfterExecutedTwice(executed, [name], MigrationRun(sorted[i + 1..], applied, ledger + {name}, failing));
          executed := executed + [name];
          ledger := ledger + {name};
        }
        i := i + 1;
      }
      outcome := Pass;
    }

    /** `initialize_database`: runs the migrations and logs, rather than raises, their failure. */
    method InitializeDatabase(migrationFiles: seq<string>, failing: set<string>)
      modifies this`ledger
      ensures ledger == MigrationRun(SortStrings(migrationFiles), old(ledger), old(ledger), failing).ledger
      ensures topics == old(topics) && files == old(files) && extractions == old(extractions)
    {
      var _, _ := ApplyMigrations(migrationFiles, failing);
    }

    /**
     * `create_topic`: writes the text file, then inserts the row. On any
     * failure the row is not there and the file at the new path is removed,
     * unless the removal itself fails (`removeFails`).
     */
    method CreateTopic(textContent: string, parentId: Option<Id>, customTitle: Option<string>,
                       topicId: Id, textFileUuid: string, now: int,
                       fault: CreateFault, removeFails: bool)
      returns (r: Option<Id>)
      modifies this
      ensures r.Some? <==> fault == CreateOk && topicId !in old(topics)
      ensures r.Some? ==> (
        && r.value == topicId
        && topics == old(topics)[topicId := TopicRow(parentId, ChooseTitle(customTitle, textContent),
                                                     textFileUuid, now, now, DefaultDisplayOrder)]
        && files == old(files)[TextFilePath(textFileUuid) := textContent])
      ensures r.Some? ==> GetTopicContent(topicId, false) == Some(textContent)
      ensures r.None? ==> topics == old(topics)
      ensures r.None? && !removeFails ==> files == old(files) - {TextFilePath(textFileUuid)}
      ensures r.None? && removeFails && fault == CreateWriteFails ==> files == old(files)
      ensures r.None? && removeFails && fault != CreateWriteFails ==>
                files == old(files)[TextFilePath(textFileUuid) := textContent]
      ensures extractions == old(extractions) && ledger == old(ledger)
    {
      var textFilePath := TextFilePath(textFileUuid);
      var title := ChooseTitle(customTitle, textContent);
      var failed := false;
      if fault == CreateWriteFails {
        failed := true;
      } else {
        files := files[textFilePath := textContent];
        if fault == CreateInsertFails || topicId in topics {
          failed := true;
        } else {
          topics := topics[topicId := TopicRow(parentId, title, textFileUuid, now, now, DefaultDisplayOrder)];
        }
      }
      if failed {
        if textFilePath in files && !removeFails {
          files := files - {textFilePath};
        }
        return None;
      }
      return Some(topicId);
    }

    /**
     * `save_topic_content`: `false` and no change for an unknown topic;
     * otherwise overwrites the file, then sets `updated_at` only. A failure
     * of the UPDATE leaves the file already overwritten.
     */
    method SaveTopicContent(topicId: Id, content: string, now: int, fault: SaveFault) returns (ok: bool)
      modifies this
      ensures ok <==> topicId in old(topics) && fault == SaveOk
      ensures topicId !in old(topics) ==> topics == old(topics) && files == old(files)
      ensures topicId in old(topics) ==>
        var path := TextFilePath(old(topics)[topicId].textFileUuid);
        && files == (if fault == SaveWriteFails then old(files) else old(files)[path := content])
        && topics == (if ok then old(topics)[topicId := old(topics)[topicId].(updatedAt := now)] else old(topics))
      ensures ok ==> GetTopicContent(topicId, false) == Some(content)
      ensures forall t :: t in old(topics) && t != topicId && topicId in old(topics)
                && old(topics)[t].textFileUuid != old(topics)[topicId].textFileUuid
                ==> GetTopicContent(t, false) == old(GetTopicContent(t, false))
      ensures extractions == old(extractions) && ledger == old(ledger)
    {
      if topicId !in topics {
        return false;
      }
      var textFilePath := TextFilePath(topics[topicId].textFileUuid);
      if fault == SaveWriteFails {
        return false;
      }
      files := files[textFilePath := content];
      if fault == SaveUpdateFails {
        ok := false;
      } else {
        topics := topics[topicId := topics[topicId].(updatedAt := now)];
        ok := true;
      }
      forall t | t in old(topics) && t != topicId && old(topics)[t].textFileUuid != old(topics)[topicId].textFileUuid
        ensures TextFilePath(old(topics)[t].textFileUuid) != textFilePath
      {
        if TextFilePath(old(topics)[t].textFileUuid) == textFilePath {
          TextFilePathInjective(old(topics)[t].textFileUuid, old(topics)[topicId].textFileUuid);
        }
      }
    }

    /**
     * `update_topic_title`: `false` and no change for an empty or
     * whitespace-only title, an unknown topic, or a database error
     * (`dbFails`); otherwise only `title` and `updated_at` change.
     */
    method UpdateTopicTitle(topicId: Id, newTitle: string, now: int, dbFails: bool) returns (ok: bool)
      modifies this
      ensures ok <==> !IsBlank(newTitle) && topicId in old(topics) && !dbFails
      ensures topics == if ok then old(topics)[topicId := old(topics)[topicId].(title := newTitle, updatedAt := now)]
                        else old(topics)
      ensures files == old(files) && extractions == old(extractions) && ledger == old(ledger)
    {
      if newTitle == "" || Strip(newTitle) == "" {
        return false;
      }
      if dbFails || topicId !in topics {
        return false;
      }
      topics := topics[topicId := topics[topicId].(title := newTitle, updatedAt := now)];
      return true;
    }

    /**
     * `get_topic_hierarchy`: every topic exactly once, as it is stored,
     * ordered by (parent_id, display_order, created_at); `[]` on a database
     * error (`fails`).
     */
    method GetTopicHierarchy(fails: bool) returns (entries: seq<HierarchyEntry>)
      ensures fails ==> entries == []
      ensures !fails ==> multiset(HierarchyIds(entries)) == multiset(topics.Keys)
      ensures forall i :: 0 <= i < |entries| ==> (
        && entries[i].id in topics
        && var row := topics[entries[i].id];
           entries[i] == HierarchyEntry(entries[i].id, row.title, row.parentId, row.createdAt))
      ensures forall i, j :: 0 <= i < j < |entries| ==> RowLeq(topics[entries[i].id], topics[entries[j].id])
    {
      if fails {
        return [];
      }
      var t := topics;
      var remaining := t.Keys;
      var ids: seq<Id> := [];
      while remaining != {}
        invariant remaining <= t.Keys
        invariant forall i :: 0 <= i < |ids| ==> ids[i] in t
        invariant SortedRows(ids, t)
        invariant multiset(ids) == multiset(t.Keys - remaining)
        decreases remaining
      {
        var k :| k in remaining;
        InsertRowSorted(k, ids, t);
        VisitKey(t.Keys, remaining, k);
        ids := InsertRow(k, ids, t);
        remaining := remaining - {k};
      }
      assert t.Keys - remaining == t.Keys;
      entries := seq(|ids|, i requires 0 <= i < |ids| =>
        HierarchyEntry(ids[i], t[ids[i]].title, t[ids[i]].parentId, t[ids[i]].createdAt));
      assert HierarchyIds(entries) == ids;
    }

    /**
     * `create_extraction`: `None` and no change when the parent or the child
     * topic is missing, or the INSERT or UPDATE fails (a duplicate id, or
     * `dbFails`); otherwise stores the span exactly as given and touches the
     * parent's `updated_at`.
     */
    method CreateExtraction(parentTopicId: Id, childTopicId: Id, startChar: int, endChar: int,
                            extractionId: Id, now: int, dbFails: bool)
      returns (r: Option<Id>)
      modifies this
      ensures r.Some? <==> parentTopicId in old(topics) && childTopicId in old(topics)
                           && extractionId !in old(extractions) && !dbFails
      ensures r.Some? ==> (
        && r.value == extractionId
        && extractions == old(extractions)[extractionId := ExtractionRow(parentTopicId, childTopicId, startChar, endChar)]
        && topics == old(topics)[parentTopicId := old(topics)[parentTopicId].(updatedAt := now)])
      ensures r.None? ==> extractions == old(extractions) && topics == old(topics)
      ensures files == old(files) && ledger == old(ledger)
    {
      if parentTopicId !in topics {
        return None;
      }
      if childTopicId !in topics {
        return None;
      }
      if extractionId in extractions || dbFails {
        return None;
      }
      extractions := extractions[extractionId := ExtractionRow(parentTopicId, childTopicId, startChar, endChar)];
      topics := topics[parentTopicId := topics[parentTopicId].(updatedAt := now)];
      return Some(extractionId);
    }

    /** The ids of the extractions whose parent is `parentTopicId`. */
    function ExtractionsOf(parentTopicId: Id): set<Id>
      reads this
    {
      set id | id in extractions && extractions[id].parentTopicId == parentTopicId
    }

    /**
     * `get_extractions_for_parent`: exactly the extractions of the parent,
     * as stored, in non-decreasing order of start character; `[]` on a
     * database error (`fails`).
     */
    method GetExtractionsForParent(parentTopicId: Id, fails: bool) returns (r: seq<ExtractionEntry>)
      ensures fails ==> r == []
      ensures !fails ==> multiset(EntryIds(r)) == multiset(ExtractionsOf(parentTopicId))
      ensures EntriesOf(r, extractions, parentTopicId)
      ensures SortedByStart(r)
    {
      r := [];
      if fails {
        return;
      }
      var x := extractions;
      var remaining := x.Keys;
      ghost var matching := set id | id in x && x[id].parentTopicId == parentTopicId;
      while remaining != {}
        invariant remaining <= x.Keys
        invariant EntriesOf(r, x, parentTopicId)
        invariant SortedByStart(r)
        invariant multiset(EntryIds(r)) == multiset(matching - remaining)
        decreases remaining
      {
        var k :| k in remaining;
        assert k in matching <==> x[k].parentTopicId == parentTopicId;
        VisitKey(matching, remaining, k);
        if x[k].parentTopicId == parentTopicId {
          var e := ExtractionEntry(k, x[k].childTopicId, x[k].startChar, x[k].endChar);
          InsertEntry(e, r, x, parentTopicId);
          r := InsertByStart(e, r);
        }
        remaining := remaining - {k};
      }
      assert matching - remaining == matching;
      assert matching == ExtractionsOf(parentTopicId);
    }
  }
}
