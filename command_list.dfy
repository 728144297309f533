/**
 * qtractorCommandList: the owned chain of commands (m_commands), the cursor
 * (m_pLastCommand) and the events it sends to the log and to update().
 *
 * Each operation is proved against its step function in UndoStack: the new
 * chain, cursor and result are that step's, and the events it appends are
 * the step's events. The properties of the steps are proved there.
 */
module CommandLists {
  import opened Commands
  import opened UndoStack

  class CommandList {
    var commands: seq<Command>   // m_commands, in execution order
    var last: Option<Command>    // m_pLastCommand; None is NULL
    var events: seq<Event>       // log messages and update() calls so far

    function View(): Chain
      reads this
    {
      Chain(commands, last)
    }

    ghost predicate Valid()
      reads this
    {
      UndoStack.Valid(View())
    }

    constructor ()
      ensures Valid()
      ensures commands == [] && last == None && events == []
    {
      commands := [];
      last := None;
      events := [];
    }

    /** clear(): every command is released and the cursor becomes NULL. */
    method Clear()
      modifies this`commands, this`last
      ensures Valid() && View() == ClearStep(old(View()))
    {
      commands := [];
      last := None;
    }

    /** lastCommand(): NULL, or a command that is in the chain. */
    function LastCommand(): (r: Option<Command>)
      reads this
      requires Valid()
      ensures r.Some? ==> r.value in commands
      ensures r.None? <==> Cursor(View()) == -1
      ensures r.Some? ==> r.value == commands[Cursor(View())]
    {
      last
    }

    /**
     * nextCommand(): the command after the cursor, the first command when the
     * cursor is NULL, and NULL when there is nothing to redo.
     */
    function NextCommand(): (r: Option<Command>)
      reads this
      requires Valid()
      ensures r == if Cursor(View()) + 1 < |commands| then Some(commands[Cursor(View()) + 1]) else None
    {
      NextCommandAt(View());
      UndoStack.NextCommand(View())
    }

    /** update(): the notification to the session and the track view. */
    method Update()
      modifies this`events
      ensures events == old(events) + [Notified]
    {
      events := events + [Notified];
    }

    /**
     * The trim loop that opens exec(): starting from nextCommand(), it reads
     * each command's next() link and then unlinks the command, until no
     * command follows the cursor.
     */
    method TrimAfterLast()
      requires Valid()
      modifies this`commands
      ensures Valid()
      ensures commands == Trimmed(old(View()))
    {
      ghost var s0 := View();
      ghost var keep := Cursor(s0) + 1;
      var pNext := NextCommand();
      while pNext.Some?
        invariant keep <= |commands| && commands[..keep] == s0.commands[..keep]
        invariant Distinct(commands)
        invariant pNext == if keep < |commands| then Some(commands[keep]) else None
        decreases |commands|
      {
        TrimOne(commands, keep);
        var late := After(commands, pNext.value);
        commands := Remove(commands, pNext.value);
        pNext := late;
      }
      assert commands == s0.commands[..keep] by {
        assert |commands| == keep;
      }
      ExecNullTrims(s0, false);
    }

    /**
     * exec(cmd): trims the chain after the cursor, then appends `cmd`, makes it
     * the cursor and applies it; `outcome` is what its redo() returns.
     */
    method Exec(cmd: Option<Command>, outcome: bool) returns (result: bool)
      requires Valid()
      requires cmd.Some? ==> cmd.value !in commands
      modifies this
      ensures Valid()
      ensures var t := ExecStep(old(View()), cmd, outcome);
        View() == t.after && result == t.result && events == old(events) + t.emitted
    {
      result := false;
      ghost var s0 := View();

      // Discard every command after the cursor.
      TrimAfterLast();

      if cmd.None? {
        assert Valid() && View() == ExecStep(s0, cmd, outcome).after by {
          ExecNullTrims(s0, outcome);
        }
      } else {
        commands := commands + [cmd.value];
        last := Final(commands);
        if last.Some? {
          // Execute the operation, log it and notify.
          result := outcome;
          events := events + [Logged(CommandOp, last.value.name, result)];
          Update();
        }
        assert Valid() by {
          ExecAppends(s0, cmd.value, outcome);
        }
      }
    }

    /**
     * undo(): applies the cursor's undo(), whose result is `outcome`, and steps
     * the cursor back to its prev() link.
     */
    method Undo(outcome: bool) returns (result: bool)
      requires Valid()
      modifies this
      ensures Valid()
      ensures var t := UndoStep(old(View()), outcome);
        View() == t.after && result == t.result && events == old(events) + t.emitted
    {
      result := false;
      if last.Some? {
        result := outcome;
        events := events + [Logged(UndoOp, last.value.name, result)];
        last := Before(commands, last.value);
        Update();
      }
      UndoStepsBack(old(View()), outcome);
    }

    /**
     * redo(): moves the cursor to nextCommand() and, when there is one, applies
     * its redo(), whose result is `outcome`.
     */
    method Redo(outcome: bool) returns (result: bool)
      requires Valid()
      modifies this
      ensures Valid()
      ensures var t := RedoStep(old(View()), outcome);
        View() == t.after && result == t.result && events == old(events) + t.emitted
    {
      result := false;
      last := NextCommand();
      if last.Some? {
        result := outcome;
        events := events + [Logged(RedoOp, last.value.name, result)];
        Update();
      }
      RedoStepsForward(old(View()), outcome);
    }
  }

  /**
   * One turn of the trim loop in exec(): unlinking the command after the
   * cursor's index closes the gap, keeps the commands up to the cursor and the
   * chain linear, and the next() link read before unlinking is the command
   * now after the cursor.
   */
  lemma TrimOne(s: seq<Command>, keep: nat)
    requires Distinct(s) && keep < |s|
    ensures var next := Remove(s, s[keep]);
      && next == s[..keep] + s[keep + 1..]
      && next[..keep] == s[..keep]
      && Distinct(next)
      && After(s, s[keep]) == if keep < |next| then Some(next[keep]) else None
  {
    AfterAt(s, keep);
    RemoveAt(s, keep);
    DistinctSkip(s, keep, keep + 1);
  }
}
