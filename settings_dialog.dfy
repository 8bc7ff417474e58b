/**
 * Two pieces of src/settings_dialog.py: the descriptive name shown for a
 * shortcut action id, and the autosave interval, which travels between the
 * stored setting (in minutes) and the index of the dialog's combo box.
 */
module Settings {
  import opened Wrappers
  import opened Text

  // ---------------------------------------------------------------------------
  // action names

  /** `action_id.split('.', 1)[-1]`: what follows the first '.', or the whole id. */
  function NamePart(actionId: string): (r: string)
    ensures '.' !in actionId ==> r == actionId
    ensures '.' in actionId ==> exists i :: 0 <= i < |actionId| && '.' !in actionId[..i] && actionId[i] == '.' && r == actionId[i + 1..]
  {
    var i := IndexOf(actionId, '.');
    if i == -1 then actionId else actionId[i + 1..]
  }

  function CapitalizeWords(words: seq<string>): (r: seq<string>)
    ensures |r| == |words|
    ensures forall k :: 0 <= k < |words| ==> r[k] == Capitalize(words[k])
  {
    if words == [] then [] else [Capitalize(words[0])] + CapitalizeWords(words[1..])
  }

  /** `_get_action_descriptive_name`: the name part's '_'-separated words, capitalized, joined by spaces. */
  function ActionDescriptiveName(actionId: string): string {
    Join(CapitalizeWords(Split(NamePart(actionId), '_')), " ")
  }

  /** The character at `k` of the descriptive name of a name part `s`: '_' turns into ' ', a word's first letter is upper case, the rest lower case. */
  function WordCase(s: string, k: nat): char
    requires k < |s|
  {
    if s[k] == '_' then ' '
    else if k == 0 || s[k - 1] == '_' then Upper(s[k])
    else Lower(s[k])
  }

  /** Capitalizing the words and joining them with spaces works character by character, keeping the length. */
  lemma {:induction false} CapitalizedJoin(s: string)
    ensures |Join(CapitalizeWords(Split(s, '_')), " ")| == |s|
    ensures forall k :: 0 <= k < |s| ==> Join(CapitalizeWords(Split(s, '_')), " ")[k] == WordCase(s, k)
    decreases |s|
  {
    var i := IndexOf(s, '_');
    if i == -1 {
      OneWordName(s);
    } else {
      var t := s[i + 1..];
      CapitalizedJoin(t);
      NameOfSplit(s, i);
      HeadWordThenRest(s, i, Join(CapitalizeWords(Split(t, '_')), " "));
    }
  }

  lemma OneWordName(s: string)
    requires '_' !in s
    ensures |Join(CapitalizeWords(Split(s, '_')), " ")| == |s|
    ensures forall k :: 0 <= k < |s| ==> Join(CapitalizeWords(Split(s, '_')), " ")[k] == WordCase(s, k)
  {
    assert Split(s, '_') == [s];
    assert CapitalizeWords([s]) == [Capitalize(s)];
    CapitalizeOneWord(s);
  }

  lemma NameOfSplit(s: string, i: int)
    requires i == IndexOf(s, '_') && i >= 0
    ensures Join(CapitalizeWords(Split(s, '_')), " ") == Capitalize(s[..i]) + " " + Join(CapitalizeWords(Split(s[i + 1..], '_')), " ")
  {
    var words := Split(s[i + 1..], '_');
    var rest := CapitalizeWords(words);
    SplitAt(s, '_', i);
    CapitalizeWordsCons(s[..i], words);
    JoinCons(Capitalize(s[..i]), rest, " ");
  }

  lemma CapitalizeWordsCons(w: string, words: seq<string>)
    ensures CapitalizeWords([w] + words) == [Capitalize(w)] + CapitalizeWords(words)
  {
    assert ([w] + words)[1..] == words;
  }

  /** The name of `s` is its first word capitalized, a space, and the name of what follows the first '_'. */
  lemma HeadWordThenRest(s: string, i: nat, tail: string)
    requires i < |s| && s[i] == '_' && '_' !in s[..i]
    requires |tail| == |s| - i - 1
    requires forall k :: 0 <= k < |tail| ==> tail[k] == WordCase(s[i + 1..], k)
    ensures |Capitalize(s[..i]) + " " + tail| == |s|
    ensures forall k :: 0 <= k < |s| ==> (Capitalize(s[..i]) + " " + tail)[k] == WordCase(s, k)
  {
    var head := s[..i];
    var r := Capitalize(head) + " " + tail;
    CapitalizeOneWord(head);
    forall k | 0 <= k < |s| ensures r[k] == WordCase(s, k) {
      if k < i {
        WordCaseOfPrefix(s, i, k);
      } else if k > i {
        assert r[k] == tail[k - i - 1];
        WordCaseOfSuffix(s, i, k);
      }
    }
  }

  /** A word without '_' capitalizes character by character. */
  lemma CapitalizeOneWord(w: string)
    requires '_' !in w
    ensures forall k :: 0 <= k < |w| ==> Capitalize(w)[k] == WordCase(w, k)
  {
    forall k | 0 <= k < |w| ensures Capitalize(w)[k] == WordCase(w, k) {
      assert w[k] in w;
      if k > 0 { assert w[k - 1] in w; }
    }
  }

  lemma WordCaseOfPrefix(s: string, i: nat, k: nat)
    requires k < i <= |s|
    ensures WordCase(s, k) == WordCase(s[..i], k)
  {
    assert s[..i][k] == s[k];
    if k > 0 { assert s[..i][k - 1] == s[k - 1]; }
  }

  lemma WordCaseOfSuffix(s: string, i: nat, k: nat)
    requires i < k < |s| && s[i] == '_'
    ensures WordCase(s, k) == WordCase(s[i + 1..], k - i - 1)
  {
    var t := s[i + 1..];
    assert t[k - i - 1] == s[k];
    if k - i - 1 > 0 { assert t[k - i - 2] == s[k - 1]; }
  }

  /**
   * The descriptive name has one character per character of the name part:
   * a ' ' for each '_', the first letter of each word in upper case and the
   * remaining letters in lower case.
   */
  lemma ActionNameByCharacter(actionId: string)
    ensures |ActionDescriptiveName(actionId)| == |NamePart(actionId)|
    ensures forall k :: 0 <= k < |NamePart(actionId)| ==> ActionDescriptiveName(actionId)[k] == WordCase(NamePart(actionId), k)
  {
    CapitalizedJoin(NamePart(actionId));
  }

  /** The example of the docstring: "file.open_collection" is shown as "Open Collection". */
  lemma ActionNameExample(id: string)
    requires id == "file.open_collection"
    ensures ActionDescriptiveName(id) == "Open Collection"
  {
    ExampleNamePart(id);
    WordCaseExample();
    NameFromWordCase(id, "Open Collection");
  }

  /** A string that agrees with `WordCase` of the name part at every position is the descriptive name. */
  lemma NameFromWordCase(id: string, expected: string)
    requires |expected| == |NamePart(id)|
    requires forall k :: 0 <= k < |expected| ==> expected[k] == WordCase(NamePart(id), k)
    ensures ActionDescriptiveName(id) == expected
  {
    ActionNameByCharacter(id);
  }

  lemma ExampleNamePart(id: string)
    requires id == "file.open_collection"
    ensures NamePart(id) == "open_collection"
  {
    assert id[..4] == "file" && id[4] == '.';
    NamePartAt(id, 4);
    assert id[5..] == "open_collection";
  }

  lemma WordCaseExample()
    ensures forall k :: 0 <= k < 15 ==> WordCase("open_collection", k) == "Open Collection"[k]
  {
  }

  /** The name part is what follows the first '.'. */
  lemma NamePartAt(id: string, i: nat)
    requires i < |id| && id[i] == '.'
    requires '.' !in id[..i]
    ensures NamePart(id) == id[i + 1..]
  {
  }

  // ---------------------------------------------------------------------------
  // autosave interval

  /** The minutes behind the combo box's entries, in order. */
  const AutosaveValues: seq<int> := [0, 1, 2, 5, 10, 15, 30]
  const DefaultAutosave: int := 5
  /** What reading an absent integer setting without a default yields. */
  const MissingInt: int := 0

  /** `list.index`: the first position holding `v`, `None` where Python raises ValueError. */
  function IndexOfValue(s: seq<int>, v: int): (r: Option<nat>)
    ensures r.None? <==> v !in s
    ensures r.Some? ==> r.value < |s| && s[r.value] == v && v !in s[..r.value]
  {
    if s == [] then None
    else if s[0] == v then Some(0)
    else
      var rest := IndexOfValue(s[1..], v);
      assert s[1..] == s[1..];
      if rest.None? then None
      else
        assert s[..rest.value + 1] == [s[0]] + s[1..][..rest.value];
        Some(rest.value + 1)
  }

  /** The combo index `load_settings` selects for a stored value. */
  function AutosaveIndexFor(saved: int): (idx: nat)
    ensures idx < |AutosaveValues|
    ensures saved in AutosaveValues ==> AutosaveValues[idx] == saved
    ensures saved !in AutosaveValues ==> AutosaveValues[idx] == DefaultAutosave
    ensures AutosaveValues[idx] !in AutosaveValues[..idx]
  {
    match IndexOfValue(AutosaveValues, saved)
    case Some(i) => i
    case None =>
      assert DefaultAutosave in AutosaveValues by { assert AutosaveValues[3] == DefaultAutosave; }
      IndexOfValue(AutosaveValues, DefaultAutosave).value
  }

  /** Saving the loaded index stores a listed value unchanged and an unlisted one as the default. */
  lemma LoadSaveRoundTrip(saved: int)
    ensures saved in AutosaveValues ==> AutosaveValues[AutosaveIndexFor(saved)] == saved
    ensures saved !in AutosaveValues ==> AutosaveValues[AutosaveIndexFor(saved)] == DefaultAutosave
    ensures AutosaveIndexFor(AutosaveValues[AutosaveIndexFor(saved)]) == AutosaveIndexFor(saved)
  {
    var idx := AutosaveIndexFor(saved);
    var v := AutosaveValues[idx];
    var j := AutosaveIndexFor(v);
    FirstOccurrence(AutosaveValues, v, idx, j);
  }

  /** Two first occurrences of the same value are the same position. */
  lemma FirstOccurrence(s: seq<int>, v: int, x: nat, y: nat)
    requires x < |s| && y < |s| && s[x] == v && s[y] == v
    requires v !in s[..x] && v !in s[..y]
    ensures x == y
  {
  }

  /** The autosave part of the dialog: the stored setting, the combo box and the signals emitted. */
  class AutosaveSetting {
    /** "data/autosave_interval_minutes" in the settings store, if present. */
    var stored: Option<int>
    /** The combo box's current index (-1 when nothing is selected). */
    var comboIndex: int
    /** Values emitted through `autosave_interval_changed`, in order. */
    var intervalChanged: seq<int>

    constructor (stored: Option<int>)
      ensures this.stored == stored && comboIndex == -1 && intervalChanged == []
    {
      this.stored := stored;
      comboIndex := -1;
      intervalChanged := [];
    }

    /** `load_settings`: the index of the stored value (5 when absent), or of 5 when it is not listed. */
    method LoadSettings()
      modifies this`comboIndex
      ensures comboIndex == AutosaveIndexFor(stored.GetOr(DefaultAutosave))
    {
      var savedAutosaveInterval := stored.GetOr(DefaultAutosave);
      var idx := IndexOfValue(AutosaveValues, savedAutosaveInterval);
      if idx.Some? {
        comboIndex := idx.value;
      } else {
        var defaultIdx := IndexOfValue(AutosaveValues, DefaultAutosave);
        comboIndex := defaultIdx.value;
      }
    }

    /** `save_settings`: writes the selected value only for an index inside the list. */
    method SaveSettings()
      modifies this`stored
      ensures 0 <= comboIndex < |AutosaveValues| ==> stored == Some(AutosaveValues[comboIndex])
      ensures !(0 <= comboIndex < |AutosaveValues|) ==> stored == old(stored)
    {
      var currentAutosaveIdx := comboIndex;
      if 0 <= currentAutosaveIdx < |AutosaveValues| {
        stored := Some(AutosaveValues[currentAutosaveIdx]);
      }
    }

    /**
     * `apply_settings`: saves, then emits the new interval only when it
     * differs from the one stored before; an index outside the list keeps
     * the old interval and emits nothing.
     */
    method ApplySettings()
      modifies this`stored, this`intervalChanged
      ensures var oldInterval := old(stored).GetOr(MissingInt);
        && (0 <= comboIndex < |AutosaveValues| ==> stored == Some(AutosaveValues[comboIndex]))
        && (!(0 <= comboIndex < |AutosaveValues|) ==> stored == old(stored))
        && (0 <= comboIndex < |AutosaveValues| && AutosaveValues[comboIndex] != oldInterval ==>
              intervalChanged == old(intervalChanged) + [AutosaveValues[comboIndex]])
        && (!(0 <= comboIndex < |AutosaveValues| && AutosaveValues[comboIndex] != oldInterval) ==>
              intervalChanged == old(intervalChanged))
    {
      var oldAutosaveInterval := stored.GetOr(MissingInt);
      SaveSettings();
      var currentAutosaveIdx := comboIndex;
      var newAutosaveInterval := if 0 <= currentAutosaveIdx < |AutosaveValues|
                                 then AutosaveValues[currentAutosaveIdx] else oldAutosaveInterval;
      if oldAutosaveInterval != newAutosaveInterval {
        intervalChanged := intervalChanged + [newAutosaveInterval];
      }
    }
  }
}
