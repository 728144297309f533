/**
 * The qtractorCommandList as a value: the owned chain of commands and the
 * cursor m_pLastCommand (None is NULL, "before the first command"), with one
 * step function per operation and the properties the operations keep.
 *
 * Each step returns the new chain and cursor, the operation's boolean result
 * and the events it emits: one log entry per applied command and one
 * notification per call of update().
 */
module UndoStack {
  import opened Commands

  datatype Chain = Chain(commands: seq<Command>, last: Option<Command>)

  /** The three log messages: "Command (..)", "Undo (..)", "Redo (..)". */
  datatype Op = CommandOp | UndoOp | RedoOp

  datatype Event =
    | Logged(op: Op, name: string, ok: bool)  // succeeded / failed message
    | Notified                                // one call of update()

  datatype Step = Step(after: Chain, result: bool, emitted: seq<Event>)

  /** The cursor is NULL or designates a command actually in the chain. */
  predicate Anchored(s: Chain) {
    s.last.Some? ==> s.last.value in s.commands
  }

  /** The structural invariant: a linear chain, and an anchored cursor. */
  predicate Valid(s: Chain) {
    Distinct(s.commands) && Anchored(s)
  }

  /** The cursor as an index into the chain: -1 stands for NULL. */
  function Cursor(s: Chain): (k: int)
    requires Anchored(s)
    ensures -1 <= k < |s.commands|
    ensures k == -1 <==> s.last.None?
    ensures s.last.Some? ==> s.commands[k] == s.last.value
  {
    if s.last.None? then -1 else Position(s.commands, s.last.value)
  }

  /** nextCommand(): the cursor's next() link, or the head when the cursor is NULL. */
  function NextCommand(s: Chain): (r: Option<Command>)
    requires Anchored(s)
    ensures r.Some? ==> r.value in s.commands
  {
    if s.last.Some? then After(s.commands, s.last.value) else First(s.commands)
  }

  /** What the trim loop of exec() leaves: the chain up to and including the cursor. */
  function Trimmed(s: Chain): (r: seq<Command>)
    requires Anchored(s)
    ensures r <= s.commands
    ensures s.last.None? ==> r == []
    ensures s.last.Some? ==> |r| > 0 && r[|r| - 1] == s.last.value
  {
    s.commands[..Cursor(s) + 1]
  }

  /** exec(cmd), where `ok` is what the command's redo() returns. */
  function ExecStep(s: Chain, cmd: Option<Command>, ok: bool): (t: Step)
    requires Anchored(s)
    ensures Anchored(t.after)
  {
    var kept := Trimmed(s);
    if cmd.None? then
      Step(Chain(kept, s.last), false, [])
    else
      Step(Chain(kept + [cmd.value], Some(cmd.value)), ok,
           [Logged(CommandOp, cmd.value.name, ok), Notified])
  }

  /** undo(), where `ok` is what the cursor's undo() returns. */
  function UndoStep(s: Chain, ok: bool): (t: Step)
    requires Anchored(s)
    ensures Anchored(t.after)
  {
    if s.last.None? then
      Step(s, false, [])
    else
      Step(Chain(s.commands, Before(s.commands, s.last.value)), ok,
           [Logged(UndoOp, s.last.value.name, ok), Notified])
  }

  /** redo(), where `ok` is what the candidate's redo() returns. */
  function RedoStep(s: Chain, ok: bool): (t: Step)
    requires Anchored(s)
    ensures Anchored(t.after)
  {
    var next := NextCommand(s);
    if next.None? then
      Step(Chain(s.commands, next), false, [])
    else
      Step(Chain(s.commands, next), ok, [Logged(RedoOp, next.value.name, ok), Notified])
  }

  /**
   * clear(): whatever the chain held, no command is left and the cursor is
   * NULL; nothing is logged or notified.
   */
  function ClearStep(s: Chain): (t: Chain)
    ensures Valid(t) && |t.commands| == 0 && Cursor(t) == -1
  {
    Chain([], None)
  }

  /** The number of update() calls recorded in an event sequence. */
  function Notifications(es: seq<Event>): (n: nat)
    ensures n <= |es|
  {
    if es == [] then 0 else (if es[0] == Notified then 1 else 0) + Notifications(es[1..])
  }

  /** The update() calls of consecutive operations add up. */
  lemma {:induction false} NotificationsAppend(a: seq<Event>, b: seq<Event>)
    ensures Notifications(a + b) == Notifications(a) + Notifications(b)
  {
    if a == [] {
      assert a + b == b;
    } else {
      assert (a + b)[1..] == a[1..] + b;
      NotificationsAppend(a[1..], b);
    }
  }

  // ---------------------------------------------------------------------
  // nextCommand()

  /**
   * nextCommand() is the command right after the cursor's position, the head
   * when the cursor is NULL, and None exactly when the cursor is the tail (or
   * the chain is empty).
   */
  lemma NextCommandAt(s: Chain)
    requires Valid(s)
    ensures NextCommand(s) ==
            if Cursor(s) + 1 < |s.commands| then Some(s.commands[Cursor(s) + 1]) else None
  {
    if s.last.Some? {
      AfterAt(s.commands, Cursor(s));
    }
  }

  /** The cursor's prev() link is the command at the index before it. */
  lemma PrevAt(s: Chain)
    requires Valid(s) && s.last.Some?
    ensures Before(s.commands, s.last.value) ==
            if Cursor(s) > 0 then Some(s.commands[Cursor(s) - 1]) else None
  {
    BeforeAt(s.commands, Cursor(s));
  }

  /** The cursor is determined by its index. */
  lemma CursorDetermines(s: Chain, t: Chain)
    requires Anchored(s) && Anchored(t)
    requires s.commands == t.commands && Cursor(s) == Cursor(t)
    ensures s == t
  {
  }

  /** A cursor given as an index: -1 is NULL, otherwise the command there. */
  function At(commands: seq<Command>, k: int): (s: Chain)
    requires -1 <= k < |commands|
    ensures Anchored(s)
  {
    Chain(commands, if k == -1 then None else Some(commands[k]))
  }

  lemma CursorAt(commands: seq<Command>, k: int)
    requires Distinct(commands) && -1 <= k < |commands|
    ensures Cursor(At(commands, k)) == k
  {
    if k >= 0 {
      PositionAt(commands, k);
    }
  }

  // ---------------------------------------------------------------------
  // exec()

  /**
   * exec(c) with a command not yet in the chain: the commands after the
   * cursor are discarded, `c` is appended and becomes the cursor, the new
   * tail, so nothing is left to redo; the result is c's redo() outcome, and
   * one log entry and one notification are emitted. The chain stays linear.
   */
  lemma ExecAppends(s: Chain, c: Command, ok: bool)
    requires Valid(s) && c !in s.commands
    ensures var t := ExecStep(s, Some(c), ok);
      && t.after.commands == s.commands[..Cursor(s) + 1] + [c]
      && t.after.last == Some(c)
      && Valid(t.after)
      && Cursor(t.after) == |t.after.commands| - 1 == Cursor(s) + 1
      && NextCommand(t.after) == None
      && t.result == ok
      && t.emitted == [Logged(CommandOp, c.name, ok), Notified]
  {
    var t := ExecStep(s, Some(c), ok);
    var kept := Trimmed(s);
    DistinctSkip(s.commands, Cursor(s) + 1, |s.commands|);
    assert s.commands[..Cursor(s) + 1] + s.commands[|s.commands|..] == kept;
    assert Distinct(t.after.commands) by {
      forall i | 0 <= i < |kept| ensures t.after.commands[i] != c {
        assert kept[i] in s.commands;
      }
    }
    CursorAt(t.after.commands, |kept|);
    assert At(t.after.commands, |kept|) == t.after;
    NextCommandAt(t.after);
  }

  /**
   * exec(NULL) still runs the trim loop: the commands after the cursor are
   * discarded, but the cursor stays, the result is false and nothing is
   * logged or notified.
   */
  lemma ExecNullTrims(s: Chain, ok: bool)
    requires Valid(s)
    ensures var t := ExecStep(s, None, ok);
      && t.after.commands == s.commands[..Cursor(s) + 1]
      && t.after.last == s.last
      && Valid(t.after)
      && Cursor(t.after) == Cursor(s)
      && NextCommand(t.after) == None
      && !t.result
      && t.emitted == []
  {
    var t := ExecStep(s, None, ok);
    DistinctSkip(s.commands, Cursor(s) + 1, |s.commands|);
    assert s.commands[..Cursor(s) + 1] + s.commands[|s.commands|..] == t.after.commands;
    CursorAt(t.after.commands, Cursor(s));
    assert At(t.after.commands, Cursor(s)) == t.after;
    NextCommandAt(t.after);
  }

  // ---------------------------------------------------------------------
  // undo() and redo()

  /**
   * undo() with a NULL cursor changes nothing and returns false. Otherwise
   * the chain is kept, the cursor moves one command back (to NULL from the
   * head) whatever the outcome, the result is the outcome, and one log entry
   * and one notification are emitted.
   */
  lemma UndoStepsBack(s: Chain, ok: bool)
    requires Valid(s)
    ensures var t := UndoStep(s, ok);
      && t.after.commands == s.commands
      && Valid(t.after)
      && (s.last.None? ==> t == Step(s, false, []))
      && (s.last.Some? ==>
            && Cursor(t.after) == Cursor(s) - 1
            && t.result == ok
            && t.emitted == [Logged(UndoOp, s.last.value.name, ok), Notified])
  {
    var t := UndoStep(s, ok);
    if s.last.Some? {
      PrevAt(s);
      CursorAt(s.commands, Cursor(s) - 1);
      assert At(s.commands, Cursor(s) - 1) == t.after;
    }
  }

  /**
   * redo() always sets the cursor to nextCommand(): one command forward, or
   * NULL when the cursor was the tail. With a candidate the result is its
   * outcome and one log entry and one notification are emitted; without
   * one the result is false and nothing is emitted. The chain is kept.
   */
  lemma RedoStepsForward(s: Chain, ok: bool)
    requires Valid(s)
    ensures var t := RedoStep(s, ok);
      && t.after.commands == s.commands
      && t.after.last == NextCommand(s)
      && Valid(t.after)
      && Cursor(t.after) == (if Cursor(s) + 1 < |s.commands| then Cursor(s) + 1 else -1)
      && (NextCommand(s).None? ==> !t.result && t.emitted == [])
      && (NextCommand(s).Some? ==>
            t.result == ok && t.emitted == [Logged(RedoOp, NextCommand(s).value.name, ok), Notified])
  {
    var t := RedoStep(s, ok);
    NextCommandAt(s);
    var k := if Cursor(s) + 1 < |s.commands| then Cursor(s) + 1 else -1;
    CursorAt(s.commands, k);
    assert At(s.commands, k) == t.after;
  }

  /** undo() then redo() returns the cursor to where it was. */
  lemma UndoThenRedo(s: Chain, ok1: bool, ok2: bool)
    requires Valid(s) && s.last.Some?
    ensures RedoStep(UndoStep(s, ok1).after, ok2).after == s
  {
    var u := UndoStep(s, ok1).after;
    UndoStepsBack(s, ok1);
    RedoStepsForward(u, ok2);
    CursorDetermines(RedoStep(u, ok2).after, s);
  }

  /** With a redo candidate, redo() then undo() returns the cursor to where it was. */
  lemma RedoThenUndo(s: Chain, ok1: bool, ok2: bool)
    requires Valid(s) && NextCommand(s).Some?
    ensures UndoStep(RedoStep(s, ok1).after, ok2).after == s
  {
    var r := RedoStep(s, ok1).after;
    NextCommandAt(s);
    RedoStepsForward(s, ok1);
    UndoStepsBack(r, ok2);
    CursorDetermines(UndoStep(r, ok2).after, s);
  }

  /**
   * redo() with the cursor at the tail of a non-empty chain returns false but
   * resets the cursor to NULL, so the redo() after it applies the head of the
   * chain once more.
   */
  lemma RedoPastTailRestarts(s: Chain, ok1: bool, ok2: bool)
    requires Valid(s) && |s.commands| > 0 && Cursor(s) == |s.commands| - 1
    ensures RedoStep(s, ok1) == Step(Chain(s.commands, None), false, [])
    ensures var t := RedoStep(Chain(s.commands, None), ok2);
      && t.after.last == Some(s.commands[0])
      && t.result == ok2
      && t.emitted == [Logged(RedoOp, s.commands[0].name, ok2), Notified]
  {
    NextCommandAt(s);
  }

  // ---------------------------------------------------------------------
  // clear() and notifications

  /** After clear(), undo() changes nothing and redo() finds no candidate. */
  lemma ClearedIsInert(s: Chain, ok1: bool, ok2: bool)
    ensures var c := ClearStep(s);
      && NextCommand(c) == None
      && UndoStep(c, ok1) == Step(c, false, [])
      && RedoStep(c, ok2) == Step(c, false, [])
  {
  }

  /**
   * update() is called exactly once by exec() with a command, by undo() with
   * a cursor and by redo() with a candidate, whatever the command's outcome,
   * and never otherwise.
   */
  lemma NotifiesExactlyOnce(s: Chain, cmd: Option<Command>, ok: bool)
    requires Anchored(s)
    ensures Notifications(ExecStep(s, cmd, ok).emitted) == if cmd.Some? then 1 else 0
    ensures Notifications(UndoStep(s, ok).emitted) == if s.last.Some? then 1 else 0
    ensures Notifications(RedoStep(s, ok).emitted) == if NextCommand(s).Some? then 1 else 0
  {
    var one := [Notified];
    assert Notifications(one) == 1 by { assert one[1..] == []; }
    forall op: Op, name: string ensures Notifications([Logged(op, name, ok), Notified]) == 1 {
      assert [Logged(op, name, ok), Notified][1..] == one;
    }
  }

  // ---------------------------------------------------------------------
  // Sequences of operations

  /** exec() of each command of `cs` in turn; the outcomes do not move the cursor. */
  function ExecAll(s: Chain, cs: seq<Command>, ok: bool): (t: Chain)
    requires Anchored(s)
    ensures Anchored(t)
    decreases |cs|
  {
    if cs == [] then s else ExecAll(ExecStep(s, Some(cs[0]), ok).after, cs[1..], ok)
  }

  /** undo() called n times. */
  function UndoTimes(s: Chain, n: nat, ok: bool): (t: Chain)
    requires Anchored(s)
    ensures Anchored(t)
    decreases n
  {
    if n == 0 then s else UndoTimes(UndoStep(s, ok).after, n - 1, ok)
  }

  /** A chain whose cursor is its tail, as exec() leaves it. */
  function AtTail(commands: seq<Command>): (s: Chain)
    ensures Anchored(s)
  {
    Chain(commands, Final(commands))
  }

  /**
   * Executing fresh commands one after another appends them, in order, after
   * the trimmed chain and leaves the cursor on the last of them, the tail.
   */
  lemma ExecAllAppends(s: Chain, cs: seq<Command>, ok: bool)
    requires Valid(s) && Distinct(cs) && cs != []
    requires forall c :: c in cs ==> c !in s.commands
    ensures ExecAll(s, cs, ok) == AtTail(Trimmed(s) + cs)
    ensures Valid(ExecAll(s, cs, ok))
  {
    var kept := Trimmed(s);
    var s1 := ExecStep(s, Some(cs[0]), ok).after;
    assert ExecAll(s, cs, ok) == ExecAll(s1, cs[1..], ok);
    ExecToTail(s, cs[0], ok);
    FreshAfterTrim(s, cs);
    assert (kept + [cs[0]]) + cs[1..] == kept + cs;
    ExecAllFromTail(kept + [cs[0]], cs[1..], ok);
    DistinctAtTail(kept + cs);
  }

  /** exec() of a fresh command leaves the trimmed chain plus the command, cursor at its tail. */
  lemma ExecToTail(s: Chain, c: Command, ok: bool)
    requires Valid(s) && c !in s.commands
    ensures ExecStep(s, Some(c), ok).after == AtTail(Trimmed(s) + [c])
  {
    ExecAppends(s, c, ok);
  }

  /** Fresh commands without repetitions extend the trimmed chain without repetitions. */
  lemma FreshAfterTrim(s: Chain, cs: seq<Command>)
    requires Valid(s) && Distinct(cs)
    requires forall c :: c in cs ==> c !in s.commands
    ensures Distinct(Trimmed(s) + cs)
  {
    var kept := Trimmed(s);
    DistinctSkip(s.commands, Cursor(s) + 1, |s.commands|);
    assert kept + s.commands[|s.commands|..] == kept;
    forall c | c in cs ensures c !in kept {
      assert c !in s.commands;
    }
    FreshJoin(kept, cs);
  }

  /** From a chain whose cursor is its tail, exec() of fresh commands appends them. */
  lemma {:induction false} ExecAllFromTail(kept: seq<Command>, cs: seq<Command>, ok: bool)
    requires Distinct(kept + cs)
    ensures ExecAll(AtTail(kept), cs, ok) == AtTail(kept + cs)
    decreases |cs|
  {
    if cs == [] {
      assert kept + cs == kept;
    } else {
      var k1 := kept + [cs[0]];
      assert k1 + cs[1..] == kept + cs;
      assert Distinct(kept) && cs[0] !in kept by {
        DistinctSkip(kept + cs, |kept|, |kept + cs|);
        assert (kept + cs)[..|kept|] + (kept + cs)[|kept + cs|..] == kept;
        assert (kept + cs)[|kept|] == cs[0];
      }
      ExecAtTail(kept, cs[0], ok);
      ExecAllFromTail(k1, cs[1..], ok);
    }
  }

  /** exec() from a chain whose cursor is its tail trims nothing. */
  lemma ExecAtTail(kept: seq<Command>, c: Command, ok: bool)
    requires Distinct(kept) && c !in kept
    ensures ExecStep(AtTail(kept), Some(c), ok).after == AtTail(kept + [c])
  {
    if kept != [] {
      CursorAt(kept, |kept| - 1);
      assert At(kept, |kept| - 1) == AtTail(kept);
    }
    assert kept[..|kept|] == kept;
  }

  /** A chain without repetitions whose cursor is its tail is valid. */
  lemma DistinctAtTail(commands: seq<Command>)
    requires Distinct(commands)
    ensures Valid(AtTail(commands))
  {
  }

  /** Fresh commands without repetitions extend a chain without repetitions. */
  lemma FreshJoin(kept: seq<Command>, cs: seq<Command>)
    requires Distinct(kept) && Distinct(cs)
    requires forall c :: c in cs ==> c !in kept
    ensures Distinct(kept + cs)
  {
    var r := kept + cs;
    forall i, j | 0 <= i < j < |r| ensures r[i] != r[j] {
      if i < |kept| && j >= |kept| {
        assert r[j] == cs[j - |kept|] && r[j] in cs;
      }
    }
  }

  /**
   * Each undo() steps the cursor back by one and keeps the chain; once the
   * cursor is NULL, further undo() calls change nothing.
   */
  lemma {:induction false} UndoTimesStepsBack(s: Chain, n: nat, ok: bool)
    requires Valid(s)
    ensures var t := UndoTimes(s, n, ok);
      && Valid(t) && t.commands == s.commands
      && Cursor(t) == if n <= Cursor(s) + 1 then Cursor(s) - n else -1
    decreases n
  {
    if n > 0 {
      UndoStepsBack(s, ok);
      UndoTimesStepsBack(UndoStep(s, ok).after, n - 1, ok);
    }
  }

  /**
   * Undoing as many commands as were just executed returns the cursor to
   * where it was before them; the executed commands stay redoable.
   */
  lemma ExecAllThenUndoAll(s: Chain, cs: seq<Command>, ok1: bool, ok2: bool)
    requires Valid(s) && Distinct(cs) && cs != []
    requires forall c :: c in cs ==> c !in s.commands
    ensures UndoTimes(ExecAll(s, cs, ok1), |cs|, ok2) == Chain(Trimmed(s) + cs, s.last)
  {
    var all := Trimmed(s) + cs;
    var t := ExecAll(s, cs, ok1);
    assert Valid(t) && t.commands == all && Cursor(t) == Cursor(s) + |cs| by {
      ExecAllAppends(s, cs, ok1);
      FreshAfterTrim(s, cs);
      CursorAt(all, |all| - 1);
      assert At(all, |all| - 1) == t;
    }
    var expected := Chain(all, s.last);
    assert Anchored(expected) && Cursor(expected) == Cursor(s) by {
      FreshAfterTrim(s, cs);
      CursorAt(all, Cursor(s));
      assert At(all, Cursor(s)) == expected;
    }
    UndoTimesStepsBack(t, |cs|, ok2);
    CursorDetermines(UndoTimes(t, |cs|, ok2), expected);
  }

  /**
   * exec(A), exec(B), undo(), exec(C) after clear() leaves the chain
   * [A, C] with the cursor on C: B is discarded and redo() finds nothing.
   */
  lemma BranchDiscarded(s: Chain, a: Command, b: Command, c: Command, ok: bool)
    requires a != b && b != c && a != c
    ensures var s1 := ExecStep(ClearStep(s), Some(a), ok).after;
      var s2 := ExecStep(s1, Some(b), ok).after;
      var s3 := UndoStep(s2, ok).after;
      var s4 := ExecStep(s3, Some(c), ok).after;
      && s2.commands == [a, b] && s3.last == Some(a)
      && s4.commands == [a, c] && s4.last == Some(c)
      && b !in s4.commands
      && RedoStep(s4, ok) == Step(Chain([a, c], None), false, [])
  {
    var s0 := ClearStep(s);
    var s1 := ExecStep(s0, Some(a), ok).after;
    ExecAppends(s0, a, ok);
    var s2 := ExecStep(s1, Some(b), ok).after;
    ExecAppends(s1, b, ok);
    var s3 := UndoStep(s2, ok).after;
    UndoStepsBack(s2, ok);
    assert s3.last == Some(a) by { CursorAt(s2.commands, 0); assert At(s2.commands, 0) == s3; }
    ExecAppends(s3, c, ok);
  }
}
