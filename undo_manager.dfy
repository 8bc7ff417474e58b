/**
 * The undo/redo engine of src/undo_manager.py. Commands are of any type
 * `C`; what running one (`execute`, `undo`, `redo`) does to the rest of the
 * program is not this module's concern, only whether it returned or raised,
 * which each operation takes as a parameter. Descriptions come from a fixed
 * `describe` function. Qt signals are recorded, in emission order, in a log.
 */
module Undo {
  import opened Wrappers

  /** The two stacks; the last element of each is its top. */
  datatype History<C> = History(undo: seq<C>, redo: seq<C>)

  /** The signals the manager emits. */
  datatype Signal<C> =
    | CanUndoChanged(canUndo: bool)
    | CanRedoChanged(canRedo: bool)
    | UndoTextChanged(undoText: string)
    | RedoTextChanged(redoText: string)
    | CommandExecuted(command: C)

  function Reverse<T>(s: seq<T>): (r: seq<T>)
    ensures |r| == |s|
    ensures forall i :: 0 <= i < |s| ==> r[i] == s[|s| - 1 - i]
  {
    if s == [] then [] else [s[|s| - 1]] + Reverse(s[..|s| - 1])
  }

  lemma ReverseReverse<T>(s: seq<T>)
    ensures Reverse(Reverse(s)) == s
  {
    var r := Reverse(Reverse(s));
    assert forall i :: 0 <= i < |s| ==> r[i] == s[i];
  }

  // ---------------------------------------------------------------------------
  // The stacks as values

  /** `execute_command`: a command that ran is pushed and the redo stack emptied; one that raised changes nothing. */
  function AfterExecute<C>(h: History<C>, command: C, outcome: Outcome<string>): History<C> {
    if outcome.Fail? then h else History(h.undo + [command], [])
  }

  /** `undo`: the top command moves to the redo stack if undoing it returned; otherwise it stays where it was. */
  function AfterUndo<C>(h: History<C>, outcome: Outcome<string>): History<C> {
    if h.undo == [] || outcome.Fail? then h
    else History(h.undo[..|h.undo| - 1], h.redo + [h.undo[|h.undo| - 1]])
  }

  /** `redo`: the top redo command moves back to the undo stack if redoing it returned. */
  function AfterRedo<C>(h: History<C>, outcome: Outcome<string>): History<C> {
    if h.redo == [] || outcome.Fail? then h
    else History(h.undo + [h.redo[|h.redo| - 1]], h.redo[..|h.redo| - 1])
  }

  /** `n` successful undos in a row. */
  function UndoTimes<C>(h: History<C>, n: nat): History<C>
    requires n <= |h.undo|
    decreases n
  {
    if n == 0 then h else UndoTimes(AfterUndo(h, Pass), n - 1)
  }

  /** `n` successful redos in a row. */
  function RedoTimes<C>(h: History<C>, n: nat): History<C>
    requires n <= |h.redo|
    decreases n
  {
    if n == 0 then h else RedoTimes(AfterRedo(h, Pass), n - 1)
  }

  /** Undo, on either outcome, moves commands between the stacks and never loses or duplicates one. */
  lemma UndoKeepsCommands<C>(h: History<C>, outcome: Outcome<string>)
    ensures multiset(AfterUndo(h, outcome).undo) + multiset(AfterUndo(h, outcome).redo)
            == multiset(h.undo) + multiset(h.redo)
  {
    if h.undo != [] && outcome.Pass? {
      MoveTop(h.undo, h.redo);
    }
  }

  /** Redo, on either outcome, likewise keeps every command on one of the stacks. */
  lemma RedoKeepsCommands<C>(h: History<C>, outcome: Outcome<string>)
    ensures multiset(AfterRedo(h, outcome).undo) + multiset(AfterRedo(h, outcome).redo)
            == multiset(h.undo) + multiset(h.redo)
  {
    if h.redo != [] && outcome.Pass? {
      MoveTopBack(h.redo, h.undo);
    }
  }

  /** Moving the top of `a` onto `b` keeps the commands of both. */
  lemma MoveTop<C>(a: seq<C>, b: seq<C>)
    requires a != []
    ensures multiset(a[..|a| - 1]) + multiset(b + [a[|a| - 1]]) == multiset(a) + multiset(b)
  {
    assert a == a[..|a| - 1] + [a[|a| - 1]];
  }

  /** Moving the top of `a` back onto `b`, stated in the order of the redo stacks. */
  lemma MoveTopBack<C>(a: seq<C>, b: seq<C>)
    requires a != []
    ensures multiset(b + [a[|a| - 1]]) + multiset(a[..|a| - 1]) == multiset(b) + multiset(a)
  {
    assert a == a[..|a| - 1] + [a[|a| - 1]];
  }

  /** An undo that returned is reversed by a redo that returned, and vice versa. */
  lemma UndoThenRedo<C>(h: History<C>)
    ensures h.undo != [] ==> AfterRedo(AfterUndo(h, Pass), Pass) == h
    ensures h.redo != [] ==> AfterUndo(AfterRedo(h, Pass), Pass) == h
  {
    if h.undo != [] {
      assert h.undo[..|h.undo| - 1] + [h.undo[|h.undo| - 1]] == h.undo;
    }
    if h.redo != [] {
      assert h.redo[..|h.redo| - 1] + [h.redo[|h.redo| - 1]] == h.redo;
    }
  }

  /** After a command ran, nothing can be redone, and undoing makes it the only redoable command. */
  lemma ExecuteThenUndo<C>(h: History<C>, command: C)
    ensures AfterExecute(h, command, Pass).redo == []
    ensures AfterUndo(AfterExecute(h, command, Pass), Pass) == History(h.undo, [command])
  {
    assert (h.undo + [command])[..|h.undo|] == h.undo;
  }

  /** `n` undos move the top `n` commands to the redo stack, the most recent at its bottom. */
  lemma {:induction false} UndoTimesMoves<C>(h: History<C>, n: nat)
    requires n <= |h.undo|
    decreases n
    ensures UndoTimes(h, n) == History(h.undo[..|h.undo| - n], h.redo + Reverse(h.undo[|h.undo| - n..]))
  {
    if n > 0 {
      var h' := AfterUndo(h, Pass);
      var k := |h.undo|;
      assert h' == History(h.undo[..k - 1], h.redo + [h.undo[k - 1]]);
      UndoTimesMoves(h', n - 1);
      MoveSlices(h.undo, h.redo, n);
      assert UndoTimes(h, n) == UndoTimes(h', n - 1);
    } else {
      assert h.undo[|h.undo|..] == [] && h.undo[..|h.undo|] == h.undo;
      assert h.redo + Reverse([]) == h.redo;
    }
  }

  /** One move off the top of `u` onto `r`, followed by `n - 1` more, is `n` moves. */
  lemma MoveSlices<C>(u: seq<C>, r: seq<C>, n: nat)
    requires 0 < n <= |u|
    ensures u[..|u| - 1][..|u| - 1 - (n - 1)] == u[..|u| - n]
    ensures (r + [u[|u| - 1]]) + Reverse(u[..|u| - 1][|u| - 1 - (n - 1)..]) == r + Reverse(u[|u| - n..])
  {
    var moved := u[|u| - n..];
    assert u[..|u| - 1][|u| - 1 - (n - 1)..] == moved[..n - 1];
    assert moved[n - 1] == u[|u| - 1];
    PushReversed(r, moved);
  }

  /** Pushing the last of `moved` and then the rest reversed is pushing all of `moved` reversed. */
  lemma PushReversed<C>(r: seq<C>, moved: seq<C>)
    requires moved != []
    ensures (r + [moved[|moved| - 1]]) + Reverse(moved[..|moved| - 1]) == r + Reverse(moved)
  {
    ReverseLast(moved);
    ConcatAssoc(r, [moved[|moved| - 1]], Reverse(moved[..|moved| - 1]));
  }

  /** Concatenation regroups. */
  lemma ConcatAssoc<T>(a: seq<T>, b: seq<T>, c: seq<T>)
    ensures (a + b) + c == a + (b + c)
  {
  }

  /** Reversing starts with the last element. */
  lemma ReverseLast<T>(s: seq<T>)
    requires s != []
    ensures Reverse(s) == [s[|s| - 1]] + Reverse(s[..|s| - 1])
  {
  }

  /** `n` redos move the top `n` commands of the redo stack back, the most recently undone first. */
  lemma {:induction false} RedoTimesMoves<C>(h: History<C>, n: nat)
    requires n <= |h.redo|
    decreases n
    ensures RedoTimes(h, n) == History(h.undo + Reverse(h.redo[|h.redo| - n..]), h.redo[..|h.redo| - n])
  {
    if n > 0 {
      var h' := AfterRedo(h, Pass);
      var k := |h.redo|;
      assert h' == History(h.undo + [h.redo[k - 1]], h.redo[..k - 1]);
      RedoTimesMoves(h', n - 1);
      MoveSlices(h.redo, h.undo, n);
      assert RedoTimes(h, n) == RedoTimes(h', n - 1);
    } else {
      assert h.redo[|h.redo|..] == [] && h.redo[..|h.redo|] == h.redo;
      assert h.undo + Reverse([]) == h.undo;
    }
  }

  /** `n` redos right after `n` undos give the stacks back. */
  lemma {:induction false} UndoTimesRedoTimes<C>(h: History<C>, n: nat)
    requires n <= |h.undo|
    ensures n <= |UndoTimes(h, n).redo|
    ensures RedoTimes(UndoTimes(h, n), n) == h
    decreases n
  {
    if n > 0 {
      var h1 := AfterUndo(h, Pass);
      UndoTimesRedoTimes(h1, n - 1);
      var u := UndoTimes(h1, n - 1);
      assert u == UndoTimes(h, n);
      UndoTimesLength(h1, n - 1);
      RedoTimesLast(u, n);
      UndoThenRedo(h);
    }
  }

  /** Each undo of a run moves one command. */
  lemma {:induction false} UndoTimesLength<C>(h: History<C>, n: nat)
    requires n <= |h.undo|
    ensures |UndoTimes(h, n).undo| == |h.undo| - n && |UndoTimes(h, n).redo| == |h.redo| + n
    decreases n
  {
    if n > 0 {
      UndoTimesLength(AfterUndo(h, Pass), n - 1);
    }
  }

  /** Each redo of a run moves one command. */
  lemma {:induction false} RedoTimesLength<C>(h: History<C>, n: nat)
    requires n <= |h.redo|
    ensures |RedoTimes(h, n).redo| == |h.redo| - n && |RedoTimes(h, n).undo| == |h.undo| + n
    decreases n
  {
    if n > 0 {
      RedoTimesLength(AfterRedo(h, Pass), n - 1);
    }
  }

  /** A run of `n` redos is a run of `n - 1` redos followed by one more. */
  lemma {:induction false} RedoTimesLast<C>(h: History<C>, n: nat)
    requires 0 < n <= |h.redo|
    ensures |RedoTimes(h, n - 1).redo| > 0
    ensures RedoTimes(h, n) == AfterRedo(RedoTimes(h, n - 1), Pass)
    decreases n
  {
    RedoTimesLength(h, n - 1);
    if n > 1 {
      RedoTimesLast(AfterRedo(h, Pass), n - 1);
    }
  }

  // ---------------------------------------------------------------------------
  // Labels and signals

  /** The text of `undo_text_changed`: "Undo <description>", or "Undo" when there is nothing to undo or it has no description. */
  function UndoLabel<C>(h: History<C>, describe: C -> string): string {
    var desc := if h.undo != [] then describe(h.undo[|h.undo| - 1]) else "";
    if desc != "" then "Undo " + desc else "Undo"
  }

  /** The text of `redo_text_changed`. */
  function RedoLabel<C>(h: History<C>, describe: C -> string): string {
    var desc := if h.redo != [] then describe(h.redo[|h.redo| - 1]) else "";
    if desc != "" then "Redo " + desc else "Redo"
  }

  /** `_update_signals`: the four signals announcing the state of the stacks. */
  function Refresh<C>(h: History<C>, describe: C -> string): seq<Signal<C>> {
    [CanUndoChanged(h.undo != []), CanRedoChanged(h.redo != []),
     UndoTextChanged(UndoLabel(h, describe)), RedoTextChanged(RedoLabel(h, describe))]
  }

  /**
   * The labels are bare exactly when there is nothing to name; otherwise
   * they name the command the next undo (redo) would move.
   */
  lemma LabelsNameNextCommand<C>(h: History<C>, describe: C -> string)
    ensures UndoLabel(h, describe) == "Undo" <==> h.undo == [] || describe(h.undo[|h.undo| - 1]) == ""
    ensures UndoLabel(h, describe) != "Undo" ==>
              var moved := AfterUndo(h, Pass).redo;
              UndoLabel(h, describe) == "Undo " + describe(moved[|moved| - 1])
    ensures RedoLabel(h, describe) == "Redo" <==> h.redo == [] || describe(h.redo[|h.redo| - 1]) == ""
    ensures RedoLabel(h, describe) != "Redo" ==>
              var moved := AfterRedo(h, Pass).undo;
              RedoLabel(h, describe) == "Redo " + describe(moved[|moved| - 1])
  {
    if h.undo != [] && describe(h.undo[|h.undo| - 1]) != "" {
      assert |UndoLabel(h, describe)| > 4;
    }
    if h.redo != [] && describe(h.redo[|h.redo| - 1]) != "" {
      assert |RedoLabel(h, describe)| > 4;
    }
  }

  // ---------------------------------------------------------------------------
  // The manager

  class UndoManager<C> {
    var undoStack: seq<C>
    var redoStack: seq<C>
    /** Every signal emitted so far, oldest first. */
    var signals: seq<Signal<C>>
    /** `command.description`. */
    const describe: C -> string

    function State(): History<C>
      reads this
    {
      History(undoStack, redoStack)
    }

    /** Both stacks start empty, and their state is announced. */
    constructor (describe: C -> string)
      ensures undoStack == [] && redoStack == []
      ensures signals == Refresh(History([], []), describe)
      ensures this.describe == describe
    {
      this.describe := describe;
      undoStack, redoStack := [], [];
      signals := Refresh(History([], []), describe);
    }

    /** `can_undo`: true exactly when an undo would move a command. */
    function CanUndo(): (b: bool)
      reads this
      ensures b <==> AfterUndo(State(), Pass) != State()
    {
      undoStack != []
    }

    /** `can_redo`: true exactly when a redo would move a command. */
    function CanRedo(): (b: bool)
      reads this
      ensures b <==> AfterRedo(State(), Pass) != State()
    {
      redoStack != []
    }

    /**
     * `execute_command`: `outcome` is what `command.execute()` did; the
     * manager raises again what it raised. The stacks are announced either way.
     */
    method ExecuteCommand(command: C, outcome: Outcome<string>) returns (r: Outcome<string>)
      modifies this
      ensures r == outcome
      ensures State() == AfterExecute(old(State()), command, outcome)
      ensures signals == old(signals) + (if outcome.Pass? then [CommandExecuted(command)] else [])
                         + Refresh(State(), describe)
    {
      if outcome.Pass? {
        undoStack := undoStack + [command];
        if redoStack != [] {
          redoStack := [];
        }
        signals := signals + [CommandExecuted(command)];
      }
      signals := signals + Refresh(State(), describe);
      return outcome;
    }

    /**
     * `undo`: with nothing to undo, returns at once and announces nothing;
     * otherwise `outcome` is what the top command's `undo()` did.
     */
    method Undo(outcome: Outcome<string>) returns (r: Outcome<string>)
      modifies this
      ensures r == if old(undoStack) == [] then Pass else outcome
      ensures State() == AfterUndo(old(State()), outcome)
      ensures signals == old(signals) + (if old(undoStack) == [] then [] else Refresh(State(), describe))
    {
      if !CanUndo() {
        return Pass;
      }
      var command := undoStack[|undoStack| - 1];
      undoStack := undoStack[..|undoStack| - 1];
      if outcome.Pass? {
        redoStack := redoStack + [command];
      } else {
        undoStack := undoStack + [command];
      }
      signals := signals + Refresh(State(), describe);
      return outcome;
    }

    /**
     * `redo`: with nothing to redo, returns at once and announces nothing;
     * otherwise `outcome` is what the top command's `redo()` did.
     */
    method Redo(outcome: Outcome<string>) returns (r: Outcome<string>)
      modifies this
      ensures r == if old(redoStack) == [] then Pass else outcome
      ensures State() == AfterRedo(old(State()), outcome)
      ensures signals == old(signals) + (if old(redoStack) == [] then [] else Refresh(State(), describe))
    {
      if !CanRedo() {
        return Pass;
      }
      var command := redoStack[|redoStack| - 1];
      redoStack := redoStack[..|redoStack| - 1];
      if outcome.Pass? {
        undoStack := undoStack + [command];
      } else {
        redoStack := redoStack + [command];
      }
      signals := signals + Refresh(State(), describe);
      return outcome;
    }

    /** `clear_stacks`. */
    method ClearStacks()
      modifies this
      ensures State() == History([], [])
      ensures signals == old(signals) + Refresh(History([], []), describe)
    {
      undoStack, redoStack := [], [];
      signals := signals + Refresh(State(), describe);
    }

    /** `get_undo_stack_descriptions`: one description per command, the next one to undo first. */
    function UndoDescriptions(): (r: seq<string>)
      reads this
      ensures |r| == |undoStack|
      ensures forall i :: 0 <= i < |r| ==> r[i] == describe(undoStack[|undoStack| - 1 - i])
    {
      Describe(Reverse(undoStack), describe)
    }

    /** `get_redo_stack_descriptions`: one description per command, the next one to redo first. */
    function RedoDescriptions(): (r: seq<string>)
      reads this
      ensures |r| == |redoStack|
      ensures forall i :: 0 <= i < |r| ==> r[i] == describe(redoStack[|redoStack| - 1 - i])
    {
      Describe(Reverse(redoStack), describe)
    }
  }

  function Describe<C>(s: seq<C>, describe: C -> string): (r: seq<string>)
    ensures |r| == |s|
    ensures forall i :: 0 <= i < |s| ==> r[i] == describe(s[i])
  {
    if s == [] then [] else [describe(s[0])] + Describe(s[1..], describe)
  }
}
