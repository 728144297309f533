# qtractorCommandList: the undo/redo command chain

This project models the undo/redo stack of Qtractor, class `qtractorCommandList`
in `src/qtractorCommand.cpp`. The list owns a chain of `qtractorCommand` objects
in execution order, `m_commands`. It also keeps a cursor, `m_pLastCommand`. The
cursor points at the most recently applied command, or is NULL ("before the
first command"). The operations are:

- `clear()` empties the chain and resets the cursor.
- `lastCommand()` reads the cursor.
- `nextCommand()` reads the redo candidate: the cursor's `next()` link, or the head of the chain when the cursor is NULL.
- `exec(cmd)` trims every command after the cursor, appends `cmd`, makes it the cursor and applies it.
- `undo()` applies the cursor's inverse and steps the cursor back to its `prev()` link.
- `redo()` steps the cursor to `nextCommand()` and applies that command.

Each applied command produces a log entry (succeeded or failed) and one call of
`update()`.

The project has three modules:

- `Commands` (`commands.dfy`) covers a command as a node of the chain. A command has an identity and a name. Its `next()` and `prev()` links are `After` and `Before`, which walk the sequence by identity. The list's `remove(item)` is `Remove`.
- `UndoStack` (`undo_stack.dfy`) covers the list as a value. It holds a `Chain` (commands and cursor) and one step function per operation. Each step returns the new chain, the boolean result and the emitted events. The lemmas state what the operations promise and which invariant they keep. The invariant is that the chain is linear and the cursor is NULL or a command of the chain.
- `CommandLists` (`command_list.dfy`) is the class `CommandList`. Its fields are `commands`, `last` and `events`. Its methods reassign them as the C++ methods do. `exec()`'s trim loop walks `next()` links and unlinks commands one by one, like the source. Each method is proved to produce exactly its step function's new chain, cursor, result and events.

What a command's `redo()` or `undo()` does to the session is not modelled. Its
boolean result is supplied by the caller as the `outcome` parameter. The log
messages are `Logged(op, name, ok)` events. A call of `update()` is a `Notified`
event.

## Model

| member | source | states |
|---|---|---|
| Commands.AfterAt | src/qtractorCommand.cpp:89 | in a chain without repetitions, `next()` of the command at index k is the command at k + 1, and NULL for the tail |
| Commands.BeforeAt | src/qtractorCommand.cpp:151 | `prev()` of the command at index k is the command at k - 1, and NULL for the head |
| Commands.RemoveAt | src/qtractorCommand.cpp:105 | `remove(item)` of the command at index k leaves the chain with exactly that element cut out and the rest in order |
| UndoStack.Cursor | src/qtractorCommand.cpp:81-84 | the cursor seen as an index: -1 exactly when it is NULL, otherwise the index of the command it designates |
| UndoStack.NextCommand | src/qtractorCommand.cpp:86-93 | `nextCommand()` is NULL or a command of the chain (its exact position is `NextCommandAt`) |
| UndoStack.NextCommandAt | src/qtractorCommand.cpp:86-93 | `nextCommand()` is the command right after the cursor, the head when the cursor is NULL, and NULL exactly when nothing follows the cursor |
| UndoStack.Trimmed | src/qtractorCommand.cpp:101-107 | the trim loop keeps a prefix of the chain that ends with the cursor, or is empty when the cursor is NULL |
| UndoStack.ExecStep | src/qtractorCommand.cpp:97-131 | `exec()` keeps the cursor NULL or in the chain |
| UndoStack.UndoStep | src/qtractorCommand.cpp:133-157 | `undo()` keeps the cursor NULL or in the chain |
| UndoStack.RedoStep | src/qtractorCommand.cpp:159-183 | `redo()` keeps the cursor NULL or in the chain |
| UndoStack.ExecAppends | src/qtractorCommand.cpp:97-131 | `exec(c)` with a new command leaves the prefix up to and including the old cursor followed by `c`. The cursor is `c`, the tail, so nothing is left to redo. The result is c's `redo()` outcome, one log entry and one `update()` are emitted, and the chain stays linear |
| UndoStack.ExecNullTrims | src/qtractorCommand.cpp:97-131 | `exec(NULL)` still truncates the chain after the cursor. It keeps the cursor, returns false and emits nothing |
| UndoStack.UndoStepsBack | src/qtractorCommand.cpp:133-157 | `undo()` with a NULL cursor changes nothing and returns false. Otherwise it keeps the chain, moves the cursor one index back (to NULL from the head) whatever the outcome, returns the outcome and emits one log entry and one `update()` |
| UndoStack.RedoStepsForward | src/qtractorCommand.cpp:159-183 | `redo()` keeps the chain and sets the cursor to `nextCommand()`: one index forward, or NULL from the tail. With a candidate it returns the outcome and emits one log entry and one `update()`. Without one it returns false and emits nothing |
| UndoStack.UndoThenRedo | src/qtractorCommand.cpp:133-183 | with a cursor set, `undo()` then `redo()` restores the same chain and cursor |
| UndoStack.RedoThenUndo | src/qtractorCommand.cpp:133-183 | with a redo candidate, `redo()` then `undo()` restores the same chain and cursor |
| UndoStack.RedoPastTailRestarts | src/qtractorCommand.cpp:164-165 | `redo()` at the tail of a non-empty chain returns false and resets the cursor to NULL. The next `redo()` applies the head of the chain again |
| UndoStack.ClearStep | src/qtractorCommand.cpp:72-77 | `clear()` leaves, whatever the chain held, no command and a NULL cursor, which is a valid state |
| UndoStack.ClearedIsInert | src/qtractorCommand.cpp:72-77 | after `clear()` nothing is redoable, `undo()` changes nothing and `redo()` finds no candidate, both returning false and emitting nothing |
| UndoStack.NotifiesExactlyOnce | src/qtractorCommand.cpp:97-183 | `update()` is called exactly once by `exec()` with a command, by `undo()` with a cursor and by `redo()` with a candidate, whatever the outcome, and never otherwise |
| UndoStack.NotificationsAppend | src/qtractorCommand.cpp:97-183 | the `update()` calls of consecutive operations add up, so the per-call counts of `NotifiesExactlyOnce` compose over any sequence of calls |
| UndoStack.ExecToTail | src/qtractorCommand.cpp:101-111 | `exec(c)` of a new command leaves the trimmed chain followed by `c`, with the cursor on `c` |
| UndoStack.ExecAtTail | src/qtractorCommand.cpp:101-111 | `exec(c)` with the cursor on the tail trims nothing and appends `c` |
| UndoStack.ExecAllFromTail | src/qtractorCommand.cpp:101-111 | from a chain whose cursor is its tail, executing new commands in turn appends them in order and leaves the cursor on the last |
| UndoStack.FreshAfterTrim | src/qtractorCommand.cpp:101-111 | new commands without repetitions keep the trimmed chain linear when appended |
| UndoStack.ExecAllAppends | src/qtractorCommand.cpp:97-131 | executing new commands one after another leaves the trimmed chain followed by those commands in order, with the cursor on the last. The chain stays linear |
| UndoStack.UndoTimesStepsBack | src/qtractorCommand.cpp:133-157 | n calls of `undo()` keep the chain and move the cursor n places back, stopping at NULL: undo() calls past the head change nothing |
| UndoStack.ExecAllThenUndoAll | src/qtractorCommand.cpp:97-157 | undoing as many commands as were just executed returns the cursor to where it was, and the executed commands stay in the chain to be redone |
| UndoStack.BranchDiscarded | src/qtractorCommand.cpp:97-183 | after `clear()`, `exec(A)`, `exec(B)`, `undo()`, `exec(C)` leaves the chain `[A, C]` with the cursor on C. B is discarded and `redo()` finds no candidate |
| CommandLists.CommandList.constructor | src/qtractorCommand.cpp:56-62 | a new list has an empty chain, a NULL cursor and no events |
| CommandLists.CommandList.Clear | src/qtractorCommand.cpp:72-77 | `clear()` leaves the state of `ClearStep`: no command and a NULL cursor; the event log is untouched |
| CommandLists.CommandList.LastCommand | src/qtractorCommand.cpp:81-84 | `lastCommand()` is NULL exactly when the cursor index is -1, and otherwise is the command of the chain at the cursor |
| CommandLists.CommandList.NextCommand | src/qtractorCommand.cpp:86-93 | `nextCommand()` is the command at the index after the cursor, or NULL when there is none |
| CommandLists.CommandList.Update | src/qtractorCommand.cpp:187-205 | `update()` records exactly one notification |
| CommandLists.CommandList.TrimAfterLast | src/qtractorCommand.cpp:101-107 | the trim loop unlinks every command after the cursor and keeps the rest. The chain stays linear |
| CommandLists.TrimOne | src/qtractorCommand.cpp:103-106 | one turn of the trim loop unlinks the command after the cursor and keeps the prefix. The `next()` link read before unlinking is the command now after the cursor |
| CommandLists.CommandList.Exec | src/qtractorCommand.cpp:97-131 | `exec()` leaves the chain, cursor, result and events of `ExecStep` and keeps the invariant |
| CommandLists.CommandList.Undo | src/qtractorCommand.cpp:133-157 | `undo()` leaves the chain, cursor, result and events of `UndoStep` and keeps the invariant |
| CommandLists.CommandList.Redo | src/qtractorCommand.cpp:159-183 | `redo()` leaves the chain, cursor, result and events of `RedoStep` and keeps the invariant |

## Behaviour at the edges

Two behaviours of the code are easy to miss; the model follows the code in both:

- `exec(NULL)` is not a no-op. The trim loop (src/qtractorCommand.cpp:101-107) runs before the null check (src/qtractorCommand.cpp:109). A NULL command therefore discards everything after the cursor. It leaves the cursor where it was, returns false and does not notify. This is `UndoStack.ExecNullTrims`.
- `redo()` with nothing to redo does not leave the cursor unchanged. It assigns `nextCommand()` to the cursor unconditionally (src/qtractorCommand.cpp:164). At the tail of a non-empty chain the cursor becomes NULL, so a following `redo()` applies the first command of the chain again. This is `UndoStack.RedoPastTailRestarts`.

## Left out

- CommandLists.CommandList.Exec: requires the command not to be in the chain already. The source hands `exec()` a newly created command whose ownership passes to the list. Appending a command that is already linked would corrupt the intrusive chain.
- The body of `update()` (src/qtractorCommand.cpp:187-205) calls into the session and the track view, which are not part of this model. A call is recorded as one `Notified` event.
- The log text (`appendMessages`, `appendMessagesError`, `QObject::tr`) is reduced to a `Logged` event carrying the operation, the command's name and whether it succeeded.
- What a concrete command's `redo()` and `undo()` do to the session is abstract. Their boolean result is the caller-supplied `outcome`.
- Deleting trimmed commands through the auto-deleting list (src/qtractorCommand.cpp:61, 105) is modelled as removal from the sequence. Memory is not modelled.
- The `m_pMainForm` pointer and the command's unused `m_bAutoDelete` flag (src/qtractorCommand.cpp:39-41, 58) carry no behaviour here.
- The destructor (src/qtractorCommand.cpp:65-68) only calls `clear()`, which is modelled.
- The intrusive list class that provides `first()`, `last()`, `append()`, `remove()` and the `prev()`/`next()` links is not part of this model. Its behaviour is modelled by `First`, `Final`, sequence append, `Remove`, `Before` and `After`.
- Concurrency: the list is used from one thread only.
