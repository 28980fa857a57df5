# Chat sessions and file panel of the EnsoAI renderer, modelled in Dafny

This project models two pieces of logic from the renderer of a desktop
IDE-like application.

**The chat panel's session list** (`ChatPanel.tsx`). The panel keeps an
ordered list of sessions and the id of the active one. A counter shared by
every panel mints ids of the form `session-N`. The model covers:
- creating a session;
- closing a session: which session becomes active, and the refill with one
  fresh session when none are left;
- selecting, renaming and marking a session initialised;
- restoring a saved snapshot, which raises the counter to at least every
  number the regular expression `/session-(\d+)/` reads out of a stored id.

Each state update that the panel hands to React is a pure function over a
`SessionState` datatype. The module-level counter is the `value` field of the
class `SessionCounter`. A mounted panel is the class `SessionPanel`. Its
methods are proved to compute exactly what those functions do. Next to them
are lemmas about what the updates guarantee:
- the list is never empty after a close;
- the rule that picks the next active session;
- that only the records with the matching id change;
- that ids minted after a restore collide with no stored id;
- the invariant `Healthy`: distinct ids, an active id that is listed, and a
  counter ahead of every id. It holds after the fallback restore and is kept
  by create, close, rename, initialise, and selecting a listed id. Selecting
  an unlisted id, or restoring an inconsistent snapshot, can break it;
- that two panels sharing one counter, each restoring and then creating a
  session, mint different ids.

**The file panel** (`FilePanel.tsx`). The model covers:
- the path strings the panel builds, with the JavaScript `lastIndexOf`,
  `substring` and `split` written out;
- the new-item dialog: two state cells that open, confirm and reset. Every
  handler keeps the invariant `Valid`: a closed dialog has an empty parent path;
- the calls each handler makes into the file tree and the editor. These are
  recorded in order as `Effect` values in a trace. Whether an awaited call
  resolves is an input: if it rejects, the handler stops at that point.

Modules: `Wrappers` (option and result types), `Decimal` (how a counter value
is written as decimal text and read back, as in `` `session-${n}` `` and
`parseInt`), `ChatPanel`, and `FilePanel`.

Closing the active id when no record carries it, with a non-empty list, makes
the source read `newSessions[-1].id`. That throws inside the state updater.
The model returns `Err(ActiveSessionMissing)` for this case and leaves the
state unchanged. `CloseFails` states exactly when this happens.
`CloseHealthy` shows that it cannot happen from a `Healthy` state.
`CloseAfterUnlistedSelect` shows that it does happen after the panel selects
an unlisted id.

## Model

| member | source | states |
|---|---|---|
| `ChatPanel.Minted` | src/renderer/components/chat/ChatPanel.tsx:17-25 | a created session reads back as number counter+1; its name is "Claude", it is not initialised, and it carries the given UUID |
| `ChatPanel.SessionCounter.CreateSession` | src/renderer/components/chat/ChatPanel.tsx:17-25 | the counter goes up by exactly one and the returned record is the one minted from the old value |
| `ChatPanel.SessionCounter.constructor` | src/renderer/components/chat/ChatPanel.tsx:15 | the counter starts at 0 |
| `ChatPanel.SuffixOfSessionId` | src/renderer/components/chat/ChatPanel.tsx:34-37 | the number the regular expression reads from `session-N` is N |
| `ChatPanel.SessionIdInjective` | src/renderer/components/chat/ChatPanel.tsx:20 | different counter values give different ids |
| `ChatPanel.SessionId` | src/renderer/components/chat/ChatPanel.tsx:20 | an id is `session-` followed by a non-empty run of decimal digits |
| `ChatPanel.SuffixWithoutMatch` | src/renderer/components/chat/ChatPanel.tsx:35-36 | an id where the regular expression matches nowhere counts as 0 |
| `ChatPanel.MatchAt` | src/renderer/components/chat/ChatPanel.tsx:35-36 | a match starts at the front exactly when the string starts with `session-` and a digit; the digits it reads are then non-empty |
| `ChatPanel.IdSuffix` | src/renderer/components/chat/ChatPanel.tsx:35-36 | a non-zero suffix comes from an id longer than `session-`; which number it is, `SuffixAtLeftmostMatch` and `SuffixWithoutMatch` state |
| `ChatPanel.SuffixAtLeftmostMatch` | src/renderer/components/chat/ChatPanel.tsx:35-36 | the suffix is the number the pattern reads at the leftmost position where it matches; with `SuffixWithoutMatch` this fixes the suffix of every id |
| `ChatPanel.MaxSuffix` | src/renderer/components/chat/ChatPanel.tsx:34-37 | the result bounds every stored suffix and equals one of them |
| `ChatPanel.Restore` | src/renderer/components/chat/ChatPanel.tsx:27-45 | a non-empty snapshot is returned as stored, and the counter becomes the least value that is at least its old value and every stored suffix; with nothing usable, one fresh session is active and the counter goes up by one; the list is never empty and the counter is ahead of every id |
| `ChatPanel.SessionCounter.LoadSessions` | src/renderer/components/chat/ChatPanel.tsx:27-45 | the loaded state and the new counter are those `Restore` gives |
| `ChatPanel.MintedIsFresh` | src/renderer/components/chat/ChatPanel.tsx:33-38 | once the counter is ahead of a list, the next minted id differs from every id in it |
| `ChatPanel.CounterAheadMonotone` | src/renderer/components/chat/ChatPanel.tsx:15-18 | a counter that only goes up stays ahead of a list it was ahead of; this keeps one panel valid while another panel on the same counter mints ids |
| `ChatPanel.TwoPanels` | src/renderer/components/chat/ChatPanel.tsx:15-18 | two panels restored and creating on one shared counter both stay valid, and the ids they mint differ |
| `ChatPanel.RestoreFallbackHealthy` | src/renderer/components/chat/ChatPanel.tsx:42-44 | the fallback state of one fresh active session satisfies the invariant |
| `ChatPanel.Survivors` | src/renderer/components/chat/ChatPanel.tsx:74 | filtering never lengthens the list |
| `ChatPanel.SurvivorsMembers` | src/renderer/components/chat/ChatPanel.tsx:74 | the filter keeps exactly the records whose id differs from the closed id |
| `ChatPanel.SurvivorsAppend` | src/renderer/components/chat/ChatPanel.tsx:74 | filtering distributes over concatenation, so survivors keep their relative order |
| `ChatPanel.SurvivorsOfUnmatched` | src/renderer/components/chat/ChatPanel.tsx:74 | a list without the id is kept whole |
| `ChatPanel.SurvivorsUnique` | src/renderer/components/chat/ChatPanel.tsx:74 | filtering keeps ids distinct |
| `ChatPanel.FindIndex` | src/renderer/components/chat/ChatPanel.tsx:77 | the first position holding the id, or -1 exactly when no record has it |
| `ChatPanel.NextOther` | src/renderer/components/chat/ChatPanel.tsx:77-79 | the first position at or after a start whose id differs, or the length when there is none |
| `ChatPanel.SurvivorsFrom` | src/renderer/components/chat/ChatPanel.tsx:74 | the survivors from a position on start with the record `NextOther` finds, or are empty |
| `ChatPanel.SurvivorsAround` | src/renderer/components/chat/ChatPanel.tsx:74-77 | the filtered list is the prefix before the closed position followed by the survivors after it |
| `ChatPanel.FollowerOfClosed` | src/renderer/components/chat/ChatPanel.tsx:77-79 | position closedIndex of the filtered list is the first survivor after the closed session; when there is none, the survivors are exactly the sessions before it |
| `ChatPanel.AddSession` | src/renderer/components/chat/ChatPanel.tsx:66-69 | the old sessions stay in place, the new one is appended at the end and becomes active |
| `ChatPanel.SessionPanel.HandleNewSession` | src/renderer/components/chat/ChatPanel.tsx:64-70 | the counter goes up by one, the state is `AddSession` of the minted session, and its id is none of the earlier ids |
| `ChatPanel.NewSessionHealthy` | src/renderer/components/chat/ChatPanel.tsx:64-70 | adding a minted session keeps the invariant |
| `ChatPanel.Close` | src/renderer/components/chat/ChatPanel.tsx:72-87 | a successful close never leaves the list empty |
| `ChatPanel.CloseFails` | src/renderer/components/chat/ChatPanel.tsx:76-79 | the updater throws exactly when the active id is closed, no record has it, and the list is not empty |
| `ChatPanel.CloseResult` | src/renderer/components/chat/ChatPanel.tsx:74-85 | the result is the survivors with the counter unchanged, or, when none survive, exactly one freshly minted active session with the counter one higher |
| `ChatPanel.CloseKeepsActive` | src/renderer/components/chat/ChatPanel.tsx:85 | closing a non-active session with others left keeps the active id |
| `ChatPanel.CloseActiveFollows` | src/renderer/components/chat/ChatPanel.tsx:76-79 | closing the active session makes active the first surviving session after it, or the last survivor when it was last (`min(closedIndex, len-1)`) |
| `ChatPanel.CloseKeepsCounterAhead` | src/renderer/components/chat/ChatPanel.tsx:72-87 | a close keeps the counter ahead of every id |
| `ChatPanel.CloseHealthy` | src/renderer/components/chat/ChatPanel.tsx:72-87 | from a state satisfying the invariant a close never throws and keeps the invariant |
| `ChatPanel.CloseAfterUnlistedSelect` | src/renderer/components/chat/ChatPanel.tsx:72-91 | a fresh panel that selects an unlisted id and closes it gets `Err(ActiveSessionMissing)` |
| `ChatPanel.SessionPanel.HandleCloseSession` | src/renderer/components/chat/ChatPanel.tsx:72-87 | the new state and counter are those of `Close`; on the error the state is unchanged |
| `ChatPanel.Select` | src/renderer/components/chat/ChatPanel.tsx:89-91 | the list is untouched and the given id becomes active, even an unlisted one |
| `ChatPanel.SessionPanel.HandleSelectSession` | src/renderer/components/chat/ChatPanel.tsx:89-91 | the state becomes `Select` of the old state |
| `ChatPanel.SelectHealthy` | src/renderer/components/chat/ChatPanel.tsx:89-91 | selecting a listed id keeps the invariant |
| `ChatPanel.UpdateWhere` | src/renderer/components/chat/ChatPanel.tsx:96-98 | same length; each position holds the updated record if its id matches and the old record otherwise |
| `ChatPanel.MarkInitialized` | src/renderer/components/chat/ChatPanel.tsx:93-100 | same length, order and active id; only matching records change, and only in `initialized` |
| `ChatPanel.SessionPanel.HandleInitialized` | src/renderer/components/chat/ChatPanel.tsx:93-100 | the state becomes `MarkInitialized` of the old state |
| `ChatPanel.MarkInitializedHealthy` | src/renderer/components/chat/ChatPanel.tsx:93-100 | marking initialised keeps the invariant |
| `ChatPanel.Rename` | src/renderer/components/chat/ChatPanel.tsx:102-109 | same length, order and active id; only matching records change, and only in `name` |
| `ChatPanel.SessionPanel.HandleRenameSession` | src/renderer/components/chat/ChatPanel.tsx:102-109 | the state becomes `Rename` of the old state |
| `ChatPanel.RenameHealthy` | src/renderer/components/chat/ChatPanel.tsx:102-109 | renaming keeps the invariant |
| `ChatPanel.UpdateKeepsIds` | src/renderer/components/chat/ChatPanel.tsx:93-109 | an update that keeps every id in place and the active id keeps the invariant |
| `ChatPanel.SessionPanel.constructor` | src/renderer/components/chat/ChatPanel.tsx:52-55 | the initial state is that of `Restore`, with a non-empty list and the counter ahead of it |
| `Decimal.Show` | src/renderer/components/chat/ChatPanel.tsx:20 | the decimal text of a counter is non-empty and all digits, with no leading zero |
| `Decimal.ValueOfShow` | src/renderer/components/chat/ChatPanel.tsx:36 | `parseInt` reads back the number a template literal wrote |
| `Decimal.ShowInjective` | src/renderer/components/chat/ChatPanel.tsx:20 | different numbers have different texts |
| `Decimal.Value` | src/renderer/components/chat/ChatPanel.tsx:36 | the number read from n digits is below 10^n |
| `Decimal.ValueAppend` | src/renderer/components/chat/ChatPanel.tsx:36 | positional notation: the value of `a + b` is the value of `a` times 10^|b| plus the value of `b` |
| `Decimal.LeadingZero` | src/renderer/components/chat/ChatPanel.tsx:36 | a leading zero does not change the value, so `007` reads as 7 |
| `Decimal.DigitRun` | src/renderer/components/chat/ChatPanel.tsx:35 | the greedy `\d+` takes the longest all-digit prefix |
| `Decimal.DigitRunOfDigits` | src/renderer/components/chat/ChatPanel.tsx:35 | on an all-digit string it takes the whole string |
| `FilePanel.LastIndexOf` | src/renderer/components/files/FilePanel.tsx:111 | the position of the last occurrence, or -1 exactly when the character does not occur |
| `FilePanel.Clamp` | src/renderer/components/files/FilePanel.tsx:111 | `substring` keeps an index inside the string, sends a negative one to 0 and a too-large one to the length |
| `FilePanel.Substring` | src/renderer/components/files/FilePanel.tsx:111 | the slice between the clamped indices, taken in ascending order when they are swapped |
| `FilePanel.Split` | src/renderer/components/files/FilePanel.tsx:121 | at least one piece, and exactly one exactly when `lastIndexOf` finds no separator |
| `FilePanel.JoinSplit` | src/renderer/components/files/FilePanel.tsx:121 | joining the pieces with the separator gives the path back |
| `FilePanel.SplitPieces` | src/renderer/components/files/FilePanel.tsx:121 | no piece contains the separator |
| `FilePanel.LastPiece` | src/renderer/components/files/FilePanel.tsx:121 | the last piece is what follows the last separator |
| `FilePanel.Parent` | src/renderer/components/files/FilePanel.tsx:111 | everything before the last `/`, or the empty string when there is none |
| `FilePanel.Basename` | src/renderer/components/files/FilePanel.tsx:121 | the name in the delete prompt has no `/` and is what follows the last `/` |
| `FilePanel.LastIndexOfChild` | src/renderer/components/files/FilePanel.tsx:94 | in `parent/name` with a name free of `/`, the last `/` is the one joining them |
| `FilePanel.ChildPath` | src/renderer/components/files/FilePanel.tsx:94 | `parent/name` is the parent, then one `/`, then the name |
| `FilePanel.RenameTarget` | src/renderer/components/files/FilePanel.tsx:111-112 | with a `/` in the path, everything before the last `/`, a `/` and the new name; without one, `/` and the new name |
| `FilePanel.DeletePrompt` | src/renderer/components/files/FilePanel.tsx:121 | the prompt is `Delete "`, the text after the last `/`, and `"?` |
| `FilePanel.ChildPathParts` | src/renderer/components/files/FilePanel.tsx:111-121 | `parent/name` splits back into the parent for renaming and the name for the delete prompt |
| `FilePanel.RenameKeepsParent` | src/renderer/components/files/FilePanel.tsx:111-112 | the rename target keeps the parent and ends in the new name |
| `FilePanel.RenameChild` | src/renderer/components/files/FilePanel.tsx:111-112 | renaming `parent/name` gives `parent/newName` |
| `FilePanel.ClickEffects` | src/renderer/components/files/FilePanel.tsx:45-50 | exactly one call for the path: activate exactly when it already has a tab, load exactly when it has none |
| `FilePanel.ConfirmEffects` | src/renderer/components/files/FilePanel.tsx:94-101 | every call concerns `parent/name`; a file is created first and loaded second exactly when the creation succeeded; a directory is only created; nothing is issued with no type; the number of calls is exactly that |
| `FilePanel.DeleteEffects` | src/renderer/components/files/FilePanel.tsx:121-126 | nothing happens exactly when not confirmed; the delete comes first, and the tab is closed second exactly when confirmed and deleted; the number of calls is exactly that |
| `FilePanel.Panel.DialogKind` | src/renderer/components/files/FilePanel.tsx:176 | the dialog shows its type while open and `'file'` otherwise |
| `FilePanel.Panel.constructor` | src/renderer/components/files/FilePanel.tsx:39-40 | the dialog starts closed as `(null, '')`, with no calls made |
| `FilePanel.Panel.HandleFileClick` | src/renderer/components/files/FilePanel.tsx:43-53 | appends `ClickEffects` for the current tabs to the trace |
| `FilePanel.Panel.HandleTabClick` | src/renderer/components/files/FilePanel.tsx:56-61 | appends one activation |
| `FilePanel.Panel.HandleTabClose` | src/renderer/components/files/FilePanel.tsx:64-69 | appends one close |
| `FilePanel.Panel.HandleSave` | src/renderer/components/files/FilePanel.tsx:72-77 | appends one save |
| `FilePanel.Panel.HandleCreateFile` | src/renderer/components/files/FilePanel.tsx:80-83 | opens the dialog as a file dialog under the given parent |
| `FilePanel.Panel.HandleCreateDirectory` | src/renderer/components/files/FilePanel.tsx:86-89 | opens the dialog as a directory dialog under the given parent |
| `FilePanel.Panel.HandleNewItemConfirm` | src/renderer/components/files/FilePanel.tsx:92-106 | appends `ConfirmEffects`; with no type it appends nothing; when the handler completes, the dialog is reset to `(null, '')` and closed, and when an awaited creation rejects it is left as it was; a closed dialog keeps an empty parent |
| `FilePanel.Panel.HandleCancel` | src/renderer/components/files/FilePanel.tsx:178-181 | resets the dialog to `(null, '')`, closed |
| `FilePanel.Panel.HandleRename` | src/renderer/components/files/FilePanel.tsx:109-116 | appends one rename from the path to `RenameTarget` |
| `FilePanel.Panel.HandleDelete` | src/renderer/components/files/FilePanel.tsx:119-129 | the prompt names the basename, and the trace grows by `DeleteEffects` |

## Left out

- `localStorage` reads and writes, `JSON.parse` and `JSON.stringify`, and `saveSessions` with its persisting effect (ChatPanel.tsx 29-31, 47-49, 59-62). The parsed snapshot is an `Option<SessionState>`: `None` stands for no stored item, an empty stored string, or a parse failure.
- Restore assumes the snapshot holds well-formed session records. In the source, a stored record whose `id` is not a string makes `.match` throw, and the `catch` then turns that into the fallback. The model does not cover that case.
- `crypto.randomUUID`: the UUID is an input carried as an opaque string.
- `IdSuffix` reads any length of digits exactly. `parseInt` loses precision above 2^53, and `Math.max(...list)` can overflow the call stack on a very large list. Neither limit is modelled.
- The counter is an unbounded `nat`. In the source it is a JavaScript number. From 2^53 on, `sessionCounter++` (ChatPanel.tsx 18) no longer changes it, so `createSession` keeps returning the same id. From 10^21 on, `` `session-${n}` `` (line 20) prints exponent notation such as `session-1e+21`, from which the regular expression reads 1. A restored suffix of 2^53 or more (line 38) reaches both. The members below hold only while the counter stays below 2^53:
- `ChatPanel.SessionCounter.CreateSession`, `ChatPanel.Minted`, `ChatPanel.SessionId`, `ChatPanel.SuffixOfSessionId`, `ChatPanel.SessionIdInjective`: do not model floating-point rounding of the counter or exponent notation in the id.
- `ChatPanel.MintedIsFresh`, `ChatPanel.NewSessionHealthy`, `ChatPanel.TwoPanels`: their freshness and distinctness claims fail in the source once the counter reaches 2^53, which the unbounded counter does not capture.
- React scheduling: hook memoisation, effects, and the development mode (StrictMode) that may run a state updater twice (which would mint two sessions inside `handleCloseSession`) and may call the lazy `useState` initializer twice (ChatPanel.tsx 52-55, which mints twice on a fallback restore). Updates are applied one at a time, in order, and the initializer runs once.
- All rendering and JSX in both components, and the `rootPath` guard that renders a placeholder.
- `window.confirm`: the answer is the boolean input `confirmed`; the prompt text is returned.
- `useFileTree` and `useEditor` calls (`createFile`, `createDirectory`, `renameItem`, `deleteItem`, `loadFile.mutate`, `saveFile.mutate`, `closeFile`, `setActiveFile`): they are recorded effects, because their implementation is not part of this model. Whether an awaited call resolves is a boolean input. Interleaving of concurrent handlers is not modelled.
- Open tabs are represented by their paths; the editor store that holds them is not part of this model.
- src/renderer/hooks/useEditor.ts, src/main/ipc/claudeProvider.ts, src/shared/types/terminal.ts and src/shared/types/file.ts: forwarding code and record types with no logic of their own here.
- What follows the updater's throw in `handleCloseSession`: React re-throws it during rendering, where an error boundary or an unmount takes over. The model stops at `Err(ActiveSessionMissing)`.
- `ChatPanel.Survivors`: its own contract only bounds the length. What it keeps, and in which order, is stated by `SurvivorsMembers` and `SurvivorsAppend`.
