# ShowdownBot in Dafny

A model of the `ShowdownBot` class from `showdown_bot.py`. The bot is a
Pokémon Showdown client that logs in as a guest, asks for a random battle and
plays it. The model covers these parts of the class:

- the object's fields and how each handler updates them;
- the line-by-line dispatcher of `handle_message`;
- the guest login answer of `handle_challstr`;
- the search request of `search_battle`;
- the per-turn decision of `handle_battle_request`: switch on low HP, or a random legal move;
- the replacement search of `choose_switch`;
- the direct challenge of `fallback_battle`.

Every message the modelled handlers write to the websocket is appended to
the field `sent`. The methods are proved against specification functions, and lemmas
state what those functions promise.

Modules:

- `Text` (`text.dfy`) models the Python string operations the bot uses:
  - `str.find`, `in`, `split`, `strip` and `startswith`;
  - `int()` on decimal text.
- `Json` (`json.dfy`) models a decoded JSON value and Python's ways of reading one:
  - `.get` with a default, `[key]`, `[0]`, iteration, truthiness and `.split`;
  - each access returns `Ok` or `Raise(error)`, with the exception Python would raise (`AttributeError`, `KeyError`, `IndexError`, `TypeError`, `ValueError`).
- `Commands` (`commands.dfy`) holds the outgoing command texts and the room name they are addressed to.
- `Decision` (`decision.dfy`) models `handle_battle_request` and `choose_switch` as functions of the decoded request:
  - `Decide` gives everything up to the random draw;
  - `IsReply` relates a request to every list of messages the bot may send for it.
- `Dispatch` (`dispatch.dfy`) models `handle_message`:
  - `Classify` follows the `if/elif` chain in source order;
  - `Next` and `Run` give the fields after one line and after a whole frame;
  - `Scan` gives the inner room scan;
  - `Emits` gives what a frame may send.
- `Bot` (`bot.dfy`) holds the class `ShowdownBot`. It has the source's fields and one method per handler, and each method is proved against the functions above.

Notes on the code, where it behaves differently from what its comments or a
reading of the branches suggest:

- **An unparsable HP raises.** The HP is `int(condition.split("/")[0].split(" ")[-1])`.
  - A fainted entry's condition `"0 fnt"` has no slash, so its last word `"fnt"` goes to `int()`, which raises.
  - The turn is then lost: nothing is sent.
  - The HP never defaults to full. Only a *missing* condition reads as `"100/100"`.
  - See `FaintedConditionRaises`, `FaintedTurnSendsNothing` and `MissingConditionIsFull`.
- **The HP comes from roster entry 0**, not from the active slot.
- **The `...` branch (lines 81-83) is reachable.**
  - Take a frame whose first line starts with `>battle-` and also contains `|updatesearch|`. That first line is taken by the search branch, so it does not start the room scan. A later line that starts with `>battle-` would still start the scan. The scan walks the frame from its first line, so it stores the room of the frame's first `>battle-` line, here `battle-x|updatesearch|`, and not the later line's room.
  - A later line that matches no line test falls through to the frame tests. The legacy test there sets the room to `Ellipsis` when three things hold:
    - no battle had started before the frame;
    - the frame holds no `|turn|`, because the test at line 78 comes first;
    - no earlier line of the frame ran the scan, which would have set `battle_started`.
  - `LegacyRoomReachable` proves this on the frame `">battle-x|updatesearch|\nfoo"`.
  - Commands are then addressed to the room text `Ellipsis`.
- **The `|pm|` test looks at the whole frame.** Take a frame that holds both `|pm|` and `/challenge`, holds no `|turn|`, and does not reach the legacy room branch (it does not start with `>battle-`, or a battle has started). Every line of that frame that no line test catches sends `|/accept` again.
  - The model keeps this.
  - `EmitsBound` bounds the total: at most one message per line.
- **The `|turn|` test also looks at the whole frame** (`TurnShadowsFrameTests`). In a frame containing `|turn|`, the legacy room branch, the challenge branch and the final `else` are never reached.

## Model

| member | source | states |
|---|---|---|
| Bot.ShowdownBot.constructor | showdown_bot.py:17-24 | the user name and format are stored (default format `gen9randombattle`); no room, not logged in, no battle started, team not logged, nothing sent |
| Bot.ShowdownBot.HandleMessage | showdown_bot.py:54-95 | after a frame the fields equal `Run` over its lines in order; earlier sends are kept; the new sends are a possible output `Emits` of the frame |
| Bot.ShowdownBot.HandleLine | showdown_bot.py:55-95 | one line goes through the `if/elif` chain: the fields become `Next` of the old ones, and what it sends satisfies `LineOutput` for the branch `Classify` picks |
| Bot.ShowdownBot.HandleFrameTests | showdown_bot.py:78-95 | for a line no line test caught, the `\|turn\|`, legacy-room, `\|pm\|` and `else` branches leave the fields equal to `Next` and send what `LineOutput` allows |
| Bot.ShowdownBot.JoinRooms | showdown_bot.py:63-71 | the inner loop over every line of the frame leaves the fields equal to `Scan` of the frame from the old fields |
| Bot.ShowdownBot.HandleChallstr | showdown_bot.py:97-104 | sends `\|/trn <username>,0` exactly when the stripped line splits at `\|challstr\|` into id and token; otherwise the exception is caught and nothing is sent |
| Bot.ShowdownBot.SearchBattle | showdown_bot.py:106-110 | sends `\|/search <format>` if and only if no battle has started |
| Bot.ShowdownBot.HandleBattleRequest | showdown_bot.py:112-158 | keeps earlier sends; what it sends is a possible reply (`RequestReply`) to the request decoded from the text after `\|request\|`; a missing marker or a decode error sends nothing |
| Bot.ShowdownBot.ChooseSwitch | showdown_bot.py:160-175 | sends exactly `ForcedReply`: a switch to the 1-based slot of the first roster entry that may come in, or nothing |
| Bot.ShowdownBot.FallbackBattle | showdown_bot.py:177-181 | sends the challenge to `mrbot2` if and only if no battle has started and the user is `mrbot1` |
| Dispatch.RoomId | showdown_bot.py:67 | the room id taken from a `>battle-` line starts with `battle-` |
| Dispatch.RoomPieces | showdown_bot.py:67 | `l.split(">")[1]` exists for a `>battle-` line and starts with `battle-` |
| Dispatch.RoomIdOf | showdown_bot.py:67 | the line `>` + id yields back the id when the id has no `>` and no trailing space |
| Dispatch.ScanKeepsLogin | showdown_bot.py:63-71 | the room scan never changes the login flag |
| Dispatch.ScanNoBattle | showdown_bot.py:65-66 | a frame with no `>battle-` line leaves the fields unchanged |
| Dispatch.ScanKeepsRoom | showdown_bot.py:68-70 | once a room is stored, the scan changes nothing |
| Dispatch.ScanFirstRoom | showdown_bot.py:65-70 | with no room stored, the scan stores the id of the first `>battle-` line and marks the battle started |
| Dispatch.ScanStepKeepsRoom | showdown_bot.py:68 | one scanned line leaves the fields unchanged when a room is stored |
| Dispatch.NextConsistent | showdown_bot.py:58-83 | one line keeps the invariant "a room is stored exactly when a battle has started" |
| Dispatch.ScanConsistent | showdown_bot.py:63-71 | the room scan keeps that invariant |
| Dispatch.RunConsistent | showdown_bot.py:54-95 | a whole frame keeps that invariant |
| Dispatch.NextLogin | showdown_bot.py:56-59 | after a line the bot is logged in if and only if it was, or the line does not start with `\|challstr\|` (that test comes first) and contains both `\|updateuser\|` and the user name |
| Dispatch.LoggedInIff | showdown_bot.py:55-59 | after a frame the bot is logged in if and only if it was before, or some line of the frame is a login line |
| Dispatch.FirstRoomWins | showdown_bot.py:68-70 | once a room is stored, no later line of any frame changes it, and the battle stays started |
| Dispatch.ChallstrReply | showdown_bot.py:97-104 | sends nothing or exactly the guest claim, and the claim only when the stripped line contains `\|challstr\|` |
| Dispatch.Challenger | showdown_bot.py:84-87 | a challenger is found if and only if the frame contains `\|pm\|` |
| Dispatch.AcceptReply | showdown_bot.py:84-92 | at most one accept, sent if and only if the frame contains `\|pm\|` |
| Dispatch.ChallstrParse | showdown_bot.py:99 | `\|challstr\|<id>\|<token>` unpacks into exactly `[id, token]` |
| Dispatch.ChallstrAnswered | showdown_bot.py:97-101 | a well-formed challenge string is answered with `\|/trn <username>,0` |
| Dispatch.AcceptsSender | showdown_bot.py:84-89 | a private message `…\|pm\|<sender>\|…` is answered with `\|/accept` and the sender stripped of surrounding whitespace (`Strip`), whatever whitespace surrounds it |
| Dispatch.AcceptOne | showdown_bot.py:84-92 | for a frame containing `\|pm\|` the sender is always found, so an answering line sends exactly one accept and the `except` there cannot fire |
| Dispatch.TurnShadowsFrameTests | showdown_bot.py:78-95 | in a frame containing `\|turn\|`, the legacy room branch, the challenge branch and the final `else` are never chosen |
| Dispatch.RunAppend | showdown_bot.py:55 | the lines of a frame are handled left to right: one more line applies one more `Next` |
| Dispatch.LineOutputAtMostOne | showdown_bot.py:55-95 | one line sends at most one message |
| Dispatch.EmitsBound | showdown_bot.py:55-95 | a frame sends at most as many messages as it has lines |
| Dispatch.LegacyFirstNoLogin | showdown_bot.py:58 | the line `>battle-x\|updatesearch\|` holds no `\|updateuser\|`, so the login test fails on it for every user name |
| Dispatch.LegacyFirstLine | showdown_bot.py:56-62 | the line `>battle-x\|updatesearch\|` is taken by the search branch, for every user name |
| Dispatch.LegacyRoomReachable | showdown_bot.py:81-83 | from the initial fields, the frame `">battle-x\|updatesearch\|\nfoo"` ends with the room `...` and the battle started, without logging in, for every user name |
| Decision.Decide | showdown_bot.py:115-119 | never reaches the empty `legal_moves` branch; a drawn move comes from a non-empty list equal to the legal moves |
| Decision.DecideActive | showdown_bot.py:121-150 | the same two facts once an active slot is known |
| Decision.Choose | showdown_bot.py:141-150 | the same two facts for the HP/move choice |
| Decision.HpOfFraction | showdown_bot.py:137-139 | a condition `"<n>/<anything>"` reads as HP `n`, so `"45/100 psn"` is 45 |
| Decision.DefaultConditionIsFull | showdown_bot.py:132-139 | the default condition `"100/100"` reads as HP 100 |
| Decision.FaintedConditionRaises | showdown_bot.py:137-139 | the condition `"0 fnt"` makes `int()` raise `ValueError` |
| Decision.MissingConditionIsFull | showdown_bot.py:132-139 | when roster entry 0 has no `condition`, the HP read is 100 |
| Decision.UnparsableHpSendsNothing | showdown_bot.py:137-158 | with no forced switch and a truthy `active`, an HP that cannot be read means the only reply is silence |
| Decision.FaintedTurnSendsNothing | showdown_bot.py:132-158 | with no forced switch and a truthy `active`, a fainted roster entry 0 (condition `"0 fnt"`) means the only reply is silence |
| Decision.HpOf | showdown_bot.py:137-139 | a condition that is not a string raises `AttributeError`; the only exceptions are `AttributeError` and `ValueError` |
| Decision.AnyEnabled | showdown_bot.py:141 | `true` only when some move is enabled; `false` only when every move was read and is disabled |
| Decision.LegalFrom | showdown_bot.py:146-148 | the legal list is no longer than the move list, and every index in it is a position of the moves it was given, counted from `base` |
| Decision.CanSwitchTo | showdown_bot.py:165-168 | an active entry never qualifies; a fainted entry (condition `"0 fnt"`) never qualifies; an entry with neither `active` nor `condition` qualifies |
| Decision.SwitchTarget | showdown_bot.py:164-173 | a found index is in range and its entry qualifies; no target means every entry was read and none qualifies |
| Decision.MoveReply | showdown_bot.py:150-154 | at most one message; one is sent exactly when the drawn move has a `move` name, and its slot reads back as the drawn index plus 1 |
| Decision.IsReply | showdown_bot.py:112-158 | every possible reply has at most one message, and a request whose reading raises is answered only with silence |
| Decision.SwitchTargetSome | showdown_bot.py:164-169 | the target is index `i` if and only if entry `i` qualifies and every earlier entry was read and does not |
| Decision.SwitchTargetNone | showdown_bot.py:164-175 | there is no target if and only if every entry was read and none qualifies |
| Decision.SwitchTargetRaises | showdown_bot.py:164-168 | an exception on entry `i` after non-qualifying earlier entries ends the search with that exception |
| Decision.ForcedReplyLowest | showdown_bot.py:160-175 | a forced switch sends at most one message, and it names slot `i+1` if and only if `i` is the lowest qualifying index |
| Decision.LegalFromExact | showdown_bot.py:146-148 | the legal list holds exactly the indices of enabled moves, in increasing order, and every move was read |
| Decision.LegalFromAgreesWithAny | showdown_bot.py:141-148 | `any(...)` is true if and only if the legal list is non-empty |
| Decision.PickedMoveIsLegal | showdown_bot.py:146-150 | a drawn index is in range and names an enabled move, and the list drawn from is non-empty |
| Decision.LegalInRange | showdown_bot.py:146-151 | every legal index is a valid index into the move list |
| Decision.DrawnMoveReplies | showdown_bot.py:149-154 | each legal index the draw may pick gives a possible reply |
| Decision.ForceSwitchTakesPriority | showdown_bot.py:115-117 | with a truthy `forceSwitch` the only reply is the forced switch, never a move |
| Decision.NoActiveSendsNothing | showdown_bot.py:118-119 | with no forced switch and a falsy `active` the only reply is silence |
| Decision.ReplyShape | showdown_bot.py:112-158 | a turn sends at most one message: a switch or a move to a slot numbered from 1 |
| Decision.ForcedReplyShape | showdown_bot.py:164-173 | a forced switch sends at most one message, a switch to a slot numbered from 1 |
| Decision.ChooseThreshold | showdown_bot.py:141-150 | HP at most 20 or no legal move switches to slot 2; otherwise a move is drawn from the legal list |
| Decision.SinglesRequestName | showdown_bot.py:122-127 | the species name of a well-formed request is the text before the first comma of `details`, read without raising |
| Decision.SinglesRequestReads | showdown_bot.py:115-141 | a well-formed singles request reaches the HP/move choice with the HP of its condition and its move list |
| Decision.SwitchTrigger | showdown_bot.py:132-150 | a well-formed request with condition `"<n>/100"` switches if and only if `n <= 20` or every move is disabled |
| Decision.TackleEmberLegal | showdown_bot.py:146-148 | Tackle enabled and Ember disabled give the legal list `[0]` |
| Decision.TackleAt45 | showdown_bot.py:141-154 | at HP 45 with Tackle only legal, the only reply is `move 1` |
| Decision.TackleAt15 | showdown_bot.py:141-144 | at HP 15 the only reply is `switch 2` |
| Commands.SwitchIndexRoundTrip | showdown_bot.py:169 | the slot number can be read back from a switch command |
| Commands.MoveIndexRoundTrip | showdown_bot.py:153 | the slot number can be read back from a move command |
| Commands.SwitchCommandInjective | showdown_bot.py:169 | different slots give different switch commands |
| Commands.SwitchIsNotMove | showdown_bot.py:142-153 | a switch command is never a move command to the same room |
| Text.JoinSplit | showdown_bot.py:55 | the lines of a frame joined back with newlines give the frame |
| Text.DecimalRoundTrip | showdown_bot.py:137 | `IntOf` reads the decimal text of `n` as `n` (Python's `int()` does too, up to its digit limit; see "Left out") |

## Left out

- The websocket loops `connect_and_run`, `initialize` and `main_loop` (lines 26-52) are I/O. `recv` is modelled by passing each frame to `HandleMessage`, and `send` by appending to `sent`. The `|/nick <username>` send in `initialize` (line 37) is not modelled, so it never appears in `sent`.
- `print` and `logging` output is left out; it changes no state.
- `json.loads` is a parameter `loads` of `HandleMessage` and `HandleBattleRequest`. `None` stands for a decode error. The JSON decoder is not part of this model.
- `random.choice` is modelled by a choice the proof does not fix (`:|`). The specification `IsReply` allows every legal index. The distribution is not modelled.
- The `asyncio.sleep` calls (lines 155 and 178) are left out. `main_loop` awaits each `handle_message` in turn, so nothing else runs on the same bot while it sleeps.
- `fallback_battle` is called nowhere in `showdown_bot.py`, `main.py` or the battle managers. `FallbackBattle` gives its body without the 20-second delay.
- `save_team_to_file` (line 129) is never reached, because `team_logged` is always set by the constructor and `hasattr` is always true. `save_team.py` is not part of this model.
- `main.py`, `battle_manager.py` and `battle_manager_online.py` are not part of this model.
- The `ws` field is not modelled. Sends go to `sent`.
- JSON numbers are exact `real`s, while Python's `json.loads` gives `int`s and `float`s. The bot reads numbers only for truthiness: `forceSwitch`, `active`, `disabled` and a roster entry's `active` (lines 115, 118, 141, 147 and 165). Float rounding is not modelled. So a number that Python rounds to `0.0`, such as `1e-400`, is falsy in the program but truthy here, unless `loads` itself yields `0`.
- Text.IntOf: accepts ASCII digits, an optional sign, surrounding whitespace and single underscores between digits. The non-ASCII Unicode digits that Python's `int()` also accepts are not modelled.
- Text.IntOf: does not model the digit limit of `int()`. Since CPython 3.11 (and 3.10.7, 3.9.14), `int()` raises `ValueError` on decimal text of more than 4300 digits by default, and `sys.set_int_max_str_digits` can change that limit. `IntOf` reads text of any length. So for a condition with a longer HP, the model reads a huge HP and replies, while the program raises and sends nothing.
- Text.DecimalRoundTrip: holds for every natural, while Python's `int()` gives the same result only below that digit limit.
