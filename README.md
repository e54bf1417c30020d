# Chat typing indicator of a game table

This project models the "is typing" indicator of a hanabi-live table
(`server/src/command_chat_typing.go`) and proves its debounce behaviour.

Every player and spectator of a table carries two fields: a `typing` flag and
the time of its last keystroke. Two operations act on them:

- **A keystroke** (`commandChatTyping` / `chatTyping`) first checks the user.
  - It refuses a user who is neither playing nor spectating.
  - In a replay, it refuses a user who is not actively spectating.
  - Otherwise it updates the spectator record, or the player record when the user has no spectator record. It refreshes the keystroke time and sets the flag.
  - It announces "started" only on a false-to-true transition of a participant with a non-empty name.
  - Every accepted keystroke schedules one delayed check, `TypingDelay` (2000 ms) later, whether or not it announced anything.
- **The delayed check** (`chatTypingCheckStopped`) does nothing when:
  - the table is gone or has been replaced by another instance;
  - the user no longer passes the two guards;
  - the record is idle.
  Otherwise it clears the flag and announces "stopped", but only once at least `TypingDelay` has passed since the last keystroke.

The project has three modules:

- `TypingSpec` (`typing_spec.dfy`) describes a table as a value (`Roster`). It defines both operations as functions on it, and proves what each one does, in lemmas.
- `DebounceTrace` (`debounce_trace.dfy`) runs keystrokes and scheduled checks in time order. It proves the debounce guarantee for a participant with a non-empty name: one typing episode announces "started" once, at its first keystroke, and "stopped" once, `TypingDelay` after its last keystroke. This holds in a trace where every check runs exactly at its due time (see "## Left out").
- `ChatTyping` (`chat_typing.dfy`) is the imperative form of the source.
  - A `Table` object holds its `Participant` objects and the checks scheduled on it.
  - The methods update a participant's `typing` and `lastTyped` fields in place.
  - Each method is proved against the `TypingSpec` function, applied to the table's state before the call.

Time is an integer number of milliseconds, passed to every operation as `now`.
Each operation returns the broadcast it would send, as an optional
`Note(name, typing)`.

"Started" is sent only when the chosen name is non-empty (line 66), and
"stopped" likewise (line 123).

## Model

| member | source | states |
|---|---|---|
| `TypingSpec.IndexOfFindsFirst` | server/src/command_chat_typing.go:30-31 | The index lookup returns the first record carrying the user ID. It returns -1 exactly when no record carries it. |
| `ChatTyping.FindIndex` | server/src/command_chat_typing.go:30-31 | The linear search over participant objects returns the same index as `IndexOf` on the participants' records. |
| `ChatTyping.Table.IsPlayerOrSpectating` | server/src/command_chat_typing.go:32 | True exactly when some player or spectator object carries the user ID. |
| `TypingSpec.UserSlotPrecedence` | server/src/command_chat_typing.go:48-64 | A user with a spectator record is handled as that spectator, whatever player record the user has. A user with only a player record is handled as that player. A user with neither is handled nowhere, which happens exactly when the user is neither playing nor spectating. |
| `TypingSpec.KeystrokeRefusals` | server/src/command_chat_typing.go:29-41 | A keystroke is refused as "not playing or spectating" exactly when the user has no record. It is refused as "not spectating replay" exactly when the user has a record but the table is a replay the user is not actively spectating. A refusal changes no record, sends nothing and schedules nothing. Every other keystroke is accepted. |
| `TypingSpec.ChatTypingMarksTarget` | server/src/command_chat_typing.go:46-69 | The selected record gets `typing = true` and `lastTyped = now`, whatever its flag was. The spectator index takes precedence. No other record changes. "Started" is sent exactly when the record was idle and its name is non-empty. With neither index, nothing changes. |
| `TypingSpec.KeystrokeAccepted` | server/src/command_chat_typing.go:43-72 | An eligible keystroke marks the user's record as typing since `now`. It leaves every other record alone and appends exactly one check for the user, due `now + TypingDelay`. It announces "started" exactly on a transition of a named participant. |
| `TypingSpec.CheckStoppedClearsOnlyWhenQuiet` | server/src/command_chat_typing.go:76-126 | The delayed check is a no-op in each of these cases: the table was replaced or removed, the user is ineligible, the record is idle, or less than `TypingDelay` has passed. Otherwise it clears only that record's flag. It announces "stopped" exactly when the name is non-empty. |
| `ChatTyping.Participant.MarkTyping` | server/src/command_chat_typing.go:51-56 | Afterwards the participant is typing, with `lastTyped = now`. The name comes back only if it was idle before. |
| `ChatTyping.Participant.ClearIfQuiet` | server/src/command_chat_typing.go:108-111 | The flag is cleared, and the name returned, exactly when `now - lastTyped >= TypingDelay`. The time is kept. |
| `ChatTyping.Table.ChatTyping` | server/src/command_chat_typing.go:46-73 | The table's new state and the broadcast are those of `TypingSpec.ChatTyping`, computed from the old state. One check for the user is appended to the scheduled checks. |
| `ChatTyping.Table.CheckStopped` | server/src/command_chat_typing.go:76-99 | The new state and broadcast are those of `TypingSpec.CheckStopped` on the old state. "Same table" means that the registry's current table is this very object. |
| `ChatTyping.Table.StopTyping` | server/src/command_chat_typing.go:101-126 | The new state and broadcast are those of `TypingSpec.StopTyping` on the old state and the two indices. |
| `ChatTyping.CommandChatTyping` | server/src/command_chat_typing.go:20-44 | A missing table gives "no such table". Otherwise the table's state, its scheduled checks and the result are exactly those of `TypingSpec.Keystroke` on the table's old state and checks. |
| `DebounceTrace.FireBefore` | server/src/command_chat_typing.go:72-77 | Every check left after the scheduler has run was already scheduled. The first remaining check is not due before `t`. |
| `DebounceTrace.FireBeforeLeavesSuffix` | server/src/command_chat_typing.go:72-77 | The scheduler runs checks from the front of the queue only, so the checks left form a suffix of the queue. |
| `DebounceTrace.FireBeforeRunsAllDue` | server/src/command_chat_typing.go:72-77 | When the queue's due times never decrease, no remaining check is due before `t`. |
| `DebounceTrace.QuietFire` | server/src/command_chat_typing.go:103-121 | Checks that find the record idle, or find less than `TypingDelay` elapsed, change nothing and send nothing. |
| `DebounceTrace.RunWhileTyping` | server/src/command_chat_typing.go:50-72 | Keystrokes that continue an episode send nothing. Afterwards the record is typing since the last one. The newest pending check is due `TypingDelay` after that keystroke, and no pending check is due later. |
| `DebounceTrace.DrainAfterTyping` | server/src/command_chat_typing.go:101-126 | After the last keystroke, the first check due `TypingDelay` later clears the flag. It sends "stopped" if the name is non-empty. Every other check does nothing, including those from further keystrokes at that same last time, and no check is left. |
| `DebounceTrace.SingleStartSingleStop` | server/src/command_chat_typing.go:46-126 | An idle, eligible participant types an episode (gaps below `TypingDelay`). If the participant's name is non-empty, the keystrokes send exactly one "started", at the first keystroke, and the checks send exactly one "stopped", at last keystroke + `TypingDelay`. Nothing else is sent; with an empty name, nothing at all is sent. The record ends idle holding the last keystroke's time, and no check remains. |
| `DebounceTrace.RefreshPostponesStop` | server/src/command_chat_typing.go:103-121 | A second keystroke `TypingDelay - eps` after the first moves the only "stopped" to `TypingDelay` after the second keystroke. |
| `DebounceTrace.ThreeKeystrokeScenario` | server/src/command_chat_typing.go:50-126 | Keystrokes at 0, 500 and 1000 ms send "started" at 0 ms and "stopped" at 3000 ms only, and leave the record idle with `lastTyped = 1000`. |

## Left out

- The goroutine and `time.Sleep` (lines 72 and 77) are not modelled as concurrency. `Table.ChatTyping` appends a `Check(userID, now + TypingDelay)` to the table's `scheduled` list. The delayed check is a method called with an explicit `now`. The order in which checks run is modelled only in `DebounceTrace.FireBefore`, oldest first; in the imperative layer, nothing removes a check from `scheduled`.
- `time.Now` and `time.Since` are replaced by an integer clock in milliseconds. The 64-bit range of Go's `time.Duration` is not modelled, because integers are unbounded here.
- `getTableAndLock`, `t.Lock`, `t.Unlock` and the `NoTableLock` / `NoTablesLock` flags are left out. The registry lookup is an input: a `Table?` that is null when the ID is not registered. For the delayed check, it is the table currently registered under the ID, compared by reference. The lock is why the operations run one at a time; it is not modelled itself.
- The warning texts of `s.Warning` and `strconv.FormatUint` are left out. A refusal is the `Rejected` result with its reason.
- `t.NotifyChatTyping` is represented by the returned `Note`; broadcast delivery is left out.
- The files defining `GetPlayerIndexFromID`, `GetSpectatorIndexFromID`, `IsPlayerOrSpectating` and `IsActivelySpectating` are not part of this model.
  - The first three are modelled as a linear search by user ID (first match).
  - Active spectating is an abstract set of user IDs held by the table.
- `Players` and `Spectators` are sequences of participant objects. This code never resizes or reassigns them; it only updates the objects. A participant's user ID and name are constants for the same reason.
- `DebounceTrace.FireBefore`: checks are assumed to run exactly at their due time, never late. In the server, `time.Sleep(TypingDelay)`, then the registry lookup and `t.Lock` (lines 77, 80, 84), only make a check run at least `TypingDelay` after its keystroke. The traces therefore do not cover a check that runs late. In a trace, a check due at the very time of a keystroke runs after that keystroke.
- `DebounceTrace.SingleStartSingleStop` covers a single typing user on a table instance that stays registered, starting with no checks pending. Its scheduler runs the checks that fall due strictly before a keystroke first. Other users' checks and table replacement during an episode are covered only one operation at a time, by the `TypingSpec` lemmas.
