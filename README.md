# Discord community bot: a verified model of its message and leveling core

The bot (`bot.py`) serves Discord guilds. It keeps:

- an experience ledger per user: xp and level;
- per-guild settings: a welcome channel and message, a join DM, a question-and-answer table and a flood-control policy;
- per-guild, per-user timestamp logs for flood control.

This project models the parts of the bot that decide what happens:

- `add_xp`, the leveling rule.
- `on_message`, the message pipeline: it ignores bots and direct messages, then applies flood control, then answers stored questions, then sends the keyword replies, then grants experience and announces level-ups, and finally hands the message to the command parser.
- `on_member_join`, with its `{user}` templating.
- The four `set_*` settings commands.
- `repeat`, `choose` and `rank`.

Layout:

- `Bot` in `bot.dfy` is a class. Its fields are the bot's global dictionaries, and its methods update them in place as the source does.
- The event handlers (`on_message`, `on_member_join`) and the `set_*` commands are proved against functions on a `State` snapshot, defined in `pipeline.dfy`. The lemmas in `pipeline.dfy` state what the bot promises about those functions. `Bot.Rank` is proved against `Ranking.SortDesc` and `Ranking.ShownCount`, and `Bot.StoreLevel` against Python's dictionary insertion order.
- The effects on Discord are returned as a sequence of `Action` values in the order the source performs them. These are timeouts, channel messages, direct messages, interaction responses and the final `process_commands`.

Modules:

- `Leveling` (`leveling.dfy`): `add_xp` on one user's record and on the ledger maps. It proves that ten messages take a level-1 user to level 2, and in general that `10 * l` messages take level `l` to `l + 1`.
- `Flood` (`flood.dfy`): the timestamp log, and how `on_message` prunes it and decides whether to fire. Time is an integer count of microseconds. The age test is Python's `timedelta.seconds`, which is the seconds part of the age modulo one day. The modulo is written out, so a message exactly one day and one second old counts as one second old (`DayOldMessagesCountAsRecent`).
- `Text` (`text.dfy`): `str.lower` on ASCII letters, `str.strip` with Python's whitespace set, the substring test `in`, and `str.replace` for every occurrence.
- `Answers` (`answers.dfy`): the lookup key `content.lower().strip()` used by `on_message` and the stored key `question.lower()` written by `set_answer`.
- `Effects` (`effects.dfy`): the `Action` datatype and the bot's fixed texts.
- `Commands` (`commands.dfy`): `repeat`, the option list of `choose` and the `{user}` substitution.
- `Ranking` (`ranking.dfy`): `sorted(user_level.keys(), key=(level, xp), reverse=True)` as a stable insertion sort, and the `min(top, len)` slice bound.
- `Pipeline` (`pipeline.dfy`): the snapshot `State`, `on_message`, `on_member_join` and the settings updates as functions, with their lemmas.
- `DiscordBot` (`bot.dfy`): the `Bot` class.

Modelling choices:

- The order of the keys of the level dictionary matters to `rank`, because Python's sort is stable and keeps ties in dictionary order. The model keeps that order in a `levelOrder` sequence. `add_xp` appends a user to it only when the user is new to the dictionary.
- `str(guild.id)` keys are modelled by the integer guild id. `str` is injective on integers.
- The timestamp dictionaries are `defaultdict`s. A missing log reads as empty (`LogOf`).
- `if new_level:` in `on_message` is Python truthiness: nothing is announced when `add_xp` returns `None` or `0`.
- `if option3:` in `choose` is truthiness of a string: an empty third option is not offered.

## Model

| member | source | states |
|---|---|---|
| Leveling.Credit | bot.py:74-89 | a level-up is returned exactly when old xp plus the gain reaches 100 times the old level, and the returned level is then the new level |
| Leveling.CreditOutcome | bot.py:77-87 | on a level-up the level grows by one and xp restarts at 0; otherwise the level stays and the gain is added to the xp |
| Leveling.CreditKeepsRecordValid | bot.py:74-89 | a record with level at least 1 and xp below the level's threshold stays so after a non-negative gain |
| Leveling.CreditLedger | bot.py:75-87 | `add_xp` writes both maps for the user, adding the user to both key sets, and leaves every other user's xp and level unchanged |
| Leveling.CreditLedgerKeepsValid | bot.py:74-89 | a valid ledger stays valid after any non-negative credit |
| Leveling.CreditTimes | bot.py:74-89 | after n credits the level has grown by at most n, and while it has not grown the xp is the sum of the gains |
| Leveling.MessagesToNextLevel | bot.py:79-86 | from 0 xp at level l, k messages worth 10 xp give 10k xp at level l while k < 10l; the 10l-th message gives level l+1 with 0 xp |
| Leveling.TenMessagesReachLevelTwo | bot.py:162 | nine messages give a new user 90 xp at level 1, and the tenth gives level 2 |
| Flood.ElapsedSeconds | bot.py:125 | `(now - t).seconds` lies in [0, 86400); for ages under a day it is the whole number of seconds elapsed |
| Flood.Prune | bot.py:124-126 | pruning never lengthens the log |
| Flood.PruneKeepsExactlyRecent | bot.py:124-126 | a timestamp survives pruning exactly when it was in the log and is at most `window` seconds old |
| Flood.PruneKeepsOrder | bot.py:124-126 | the pruned log is a subsequence of the log, in the same order |
| Flood.PruneAppend | bot.py:124-126 | pruning distributes over concatenation |
| Flood.PruneKeepsRecent | bot.py:124-126 | a log whose entries are all recent is kept whole |
| Flood.Step | bot.py:121-140 | after one message the log is empty if the monitor fired and otherwise shorter than `limit`, and holds only `now` and earlier entries |
| Flood.StepSpec | bot.py:121-140 | after appending `now` and pruning, the monitor fires exactly when at least `limit` entries remain; the log is then cleared, and otherwise it is the pruned log |
| Flood.StepGrowsByAtMostOne | bot.py:121-129 | one message adds at most one entry to a log, and firing needs at least `limit` entries |
| Flood.NonPositiveLimitAlwaysFires | bot.py:129 | with a limit of 0 or below, every message fires and the log is cleared |
| Flood.Run | bot.py:121-140 | after a run of messages the monitor has fired at most once per message, and the log is empty or shorter than `limit` |
| Flood.FiresAtMostOncePerLimit | bot.py:121-140 | over any message sequence, `fires * limit` plus the remaining log length never exceeds the number of messages |
| Flood.BurstRun | bot.py:121-140 | in a burst where every message is recent to every later one, the log is always the newest messages since the last firing, and it is shorter than `limit` |
| Flood.BurstFiresEveryLimitMessages | bot.py:121-140 | a burst of `q * limit + r` messages (with r < limit) fires exactly q times and leaves the last r timestamps |
| Flood.TwoQuickMessagesKept | bot.py:121-140 | with limit 3 and window 10, messages at 0 s and 1 s are both kept and do not fire |
| Flood.ThirdQuickMessageFires | bot.py:121-140 | with limit 3 and window 10, a third message at 2 s fires and clears the log |
| Flood.LateMessageStartsAfresh | bot.py:121-140 | with limit 3 and window 10, a message 15 s after messages at 0 s and 1 s finds both expired and leaves only itself |
| Flood.DayOldMessagesCountAsRecent | bot.py:125 | a timestamp one day and one second old counts as one second old, so it survives a 10-second window |
| Text.LowerChar | bot.py:146 | lowering keeps whitespace, maps each of A-Z to its own lower-case letter (code point plus 32), leaves every other character and never yields a capital |
| Text.Lower | bot.py:146 | lowering keeps the length, lowers each character in place and leaves no capital letter |
| Text.Strip | bot.py:146 | `strip()` is never longer than its input and leaves no whitespace at either end |
| Text.StripSpec | bot.py:146 | `strip()` returns a slice of the input with only whitespace cut on either side |
| Text.StripSurrounded | bot.py:146 | a trimmed text surrounded by whitespace strips back to itself |
| Text.StripTrimmed | bot.py:146 | stripping a text without whitespace at its ends changes nothing |
| Text.Contains | bot.py:155-158 | `w in s` needs `w` to be no longer than `s`, and the empty text is in every text |
| Text.ContainsSpec | bot.py:155-158 | `w in s` holds exactly when `w` occurs at some index of `s` |
| Text.ReplaceAll | bot.py:180 | replacing a pattern by itself changes nothing, and a text without the pattern comes back unchanged |
| Text.ReplaceAllLeavesNoPlaceholder | bot.py:180 | replacing every occurrence of a pattern by a text that shares no character with it leaves no occurrence of the pattern |
| Answers.LookupKey | bot.py:146 | the lookup key `content.lower().strip()` is no longer than the message, has no whitespace at either end and no capital letter |
| Answers.StoredKey | bot.py:240 | the stored key `question.lower()` has the question's length and no capital letter, and has whitespace at an end exactly when the question does |
| Answers.LowerAppend | bot.py:146 | lowering distributes over concatenation |
| Answers.LookupIgnoresCaseAndPadding | bot.py:146-147 | a message consisting of a trimmed question with whitespace around it, in any case, looks up the key `set_answer` stored for that question |
| Answers.UntrimmedQuestionNeverMatches | bot.py:240 | a question stored with whitespace at either end can never be matched by any message |
| Commands.Repeat | bot.py:263-272 | more than 5 repetitions give only the warning; otherwise `times` sends (none when `times` <= 0 or the channel cannot send) followed by the done response; never more than 6 effects |
| Commands.ChoiceOptions | bot.py:315-317 | the options are option1, then option2, then option3 exactly when it is given and not empty |
| Commands.ChoiceOptionsOffered | bot.py:315-318 | a text can be chosen exactly when it is one of the first two options or the given non-empty third |
| Commands.FillUser | bot.py:180 | a template without `{user}` is sent as written |
| Commands.FillUserReplacesEveryPlaceholder | bot.py:180 | after filling in a non-empty mention that shares no character with `{user}`, no `{user}` remains |
| Commands.FillUserTwice | bot.py:180 | every occurrence is replaced: `{user}{user}` becomes the mention twice |
| Ranking.Insert | bot.py:333 | the inserted list is the old list plus the user, as a multiset |
| Ranking.SortDesc | bot.py:333 | the ranking is a permutation of the users |
| Ranking.AtLeastIsTotalOrder | bot.py:333 | comparing (level, xp) pairs is total and transitive, and antisymmetric up to equal keys |
| Ranking.SortDescIsDescending | bot.py:333 | every user ranks at or above every user after them |
| Ranking.SortDescIsStable | bot.py:333 | users with equal (level, xp) keep their input order, as Python's stable sort with `reverse=True` does |
| Ranking.ShownCount | bot.py:334-336 | the number of places shown is `min(top, n)` for `top` >= 0; a negative `top` drops that many places from the end |
| Ranking.XpBreaksLevelTies | bot.py:333 | of two users at the same level, the one with more xp ranks first |
| Ranking.TiesKeepMapOrder | bot.py:333 | a level-2 user ranks above two level-1 users with equal xp, and those two keep their dictionary order |
| Pipeline.WithLog | bot.py:121-126 | writing a user's log changes that log only |
| Pipeline.CreditUser | bot.py:74-89 | `add_xp` on the snapshot: the ledger update and the returned level; key order stays consistent; nothing else changes |
| Pipeline.Monitor | bot.py:112-140 | a guild without a policy is untouched; otherwise the author's log is the step's log and the step's verdict is returned; only logs change |
| Pipeline.AnswerFor | bot.py:145-148 | an answer is found exactly when the guild has a table holding the message's lookup key |
| Pipeline.KeywordReplies | bot.py:155-158 | the morning reply is sent exactly when the text contains 早安, and the farewell exactly when it contains 掰掰; each at most once, morning first; nothing else is sent |
| Pipeline.Reply | bot.py:144-166 | the part after flood control changes only xp, level and key order |
| Pipeline.TimeoutActions | bot.py:130-138 | one or two effects and no hand-over; the timeout is performed, first, exactly when it succeeds |
| Pipeline.OnMessageSpec | bot.py:105-166 | handling a message never changes the welcome, join DM, Q&A or flood-control settings |
| Pipeline.IgnoredMessagesChangeNothing | bot.py:106-107 | messages from bots or outside guilds cause no effect and no change |
| Pipeline.HandledMessagesReachCommands | bot.py:141-166 | every handled message goes to the command parser exactly once, as the last effect |
| Pipeline.NoPolicyNoLogs | bot.py:112 | a guild without a policy never touches a timestamp log |
| Pipeline.FloodControl | bot.py:112-142 | the author's log is the recent earlier entries plus `now`; firing happens exactly at `limit` entries, clears the log, performs the timeout effects and skips the ledger; no other log changes |
| Pipeline.AnswerShortCircuits | bot.py:145-152 | a stored question gets its answer and the hand-over only: no keyword reply and no xp |
| Pipeline.OrdinaryMessage | bot.py:154-166 | otherwise: the keyword replies, a 10-xp credit, the level-up notice when `add_xp` returns a non-zero level, then the hand-over |
| Pipeline.OnMessageKeepsLedgerValid | bot.py:105-166 | handling a message keeps the ledger valid and the level map's key order consistent |
| Pipeline.BothKeywordsBothReplies | bot.py:155-158 | a message with both keywords gets both replies, morning first |
| Pipeline.WithWelcome | bot.py:202 | `set_welcome` sets the guild's channel and message and leaves the other guilds and settings alone |
| Pipeline.WithJoinDm | bot.py:215 | `set_join_dm` sets the guild's DM text and leaves the other guilds and settings alone |
| Pipeline.WithAntispam | bot.py:226 | `set_antispam` sets the guild's policy and leaves the other guilds and settings alone |
| Pipeline.WithAnswer | bot.py:238-240 | `set_answer` creates the guild's table if missing and sets one key; the other keys and guilds are unchanged |
| Pipeline.AnswerSetThenAsked | bot.py:238-240 | after `set_answer` on a question, a message whose text is a trimmed text with the same lowercase form, in any case, with any surrounding whitespace, gets exactly that answer |
| Pipeline.CapitalisedQuestionFindsAnswer | bot.py:145-148 | after `set_answer("hi", "hello")` the message " Hi " finds the answer "hello" |
| Pipeline.PaddedQuestionChangesNoReply | bot.py:240 | `set_answer` on a question with surrounding whitespace changes no message's answer |
| Pipeline.NonPositiveLimitMutesEveryone | bot.py:226 | after `set_antispam` with a limit of 0 or below, every guild message triggers the timeout effects |
| Pipeline.OnMemberJoin | bot.py:169-190 | one effect per configured target: the welcome exactly when configured and its channel still exists, then the DM exactly when configured, each with `{user}` filled in |
| Pipeline.JoinMessagesHaveNoPlaceholder | bot.py:180-187 | join messages never carry a literal `{user}` |
| DiscordBot.Bot.constructor | bot.py:26-65 | the bot starts with the loaded ledger and settings and with empty logs |
| DiscordBot.Bot.StoreLevel | bot.py:82-87 | writing a level appends the user to the key order only when the user is new |
| DiscordBot.Bot.AddXp | bot.py:74-89 | the in-place update equals `CreditUser` on the old state, and so does the returned level |
| DiscordBot.Bot.OnMessage | bot.py:105-166 | the new state and the effects equal `OnMessageSpec` on the old state, keeping the key order consistent |
| DiscordBot.Bot.Throttle | bot.py:112-142 | the flood-control block in place equals `Monitor`; a firing performs the timeout effects and the hand-over, and otherwise there is no effect |
| DiscordBot.Bot.Reply | bot.py:144-166 | the rest of `on_message` in place equals `Pipeline.Reply` |
| DiscordBot.Bot.OnMemberJoin | bot.py:169-190 | the effects equal `Pipeline.OnMemberJoin` on the current state |
| DiscordBot.Bot.SetWelcome | bot.py:201-202 | the new state is `WithWelcome` of the old |
| DiscordBot.Bot.SetJoinDm | bot.py:214-215 | the new state is `WithJoinDm` of the old |
| DiscordBot.Bot.SetAntispam | bot.py:225-226 | the new state is `WithAntispam` of the old |
| DiscordBot.Bot.SetAnswer | bot.py:237-240 | the new state is `WithAnswer` of the old with key `question.lower()` |
| DiscordBot.Bot.Rank | bot.py:330-342 | no data exactly when the level map is empty; otherwise `ShownCount(n, top)` places (`min(top, n)` when `top >= 0`) of the stable descending ranking, with each user's level and xp, numbered from 1, distinct, and non-increasing in (level, xp) |
| DiscordBot.RankingLists | bot.py:333 | the ranking lists each user of the level map once, in non-increasing key order |

## Left out

- JSON persistence is not modelled: the loads at start-up and `save_levels` and the other dumps after each change. The constructor takes the loaded maps as parameters, with their keys already converted, as lines 30-31 do for the ledger.
- The Discord connection is not modelled: the gateway, `bot.tree.sync`, `on_ready`, and `keep_alive` with its web server.
- The commands `hello`, `ping`, `say`, `dm`, `dice` and the AI command are not modelled. They only relay text or call services outside the bot.
- The `level` command is not modelled. It is a read-only query of the ledger the model keeps (`user_level.get(id, 1)` and `user_xp.get(id, 0)`), outside the modelled core. The same defaulting reads are `Leveling.XpOf` and `Leveling.LevelOf`.
- The `dm_user` command is not modelled, including its `isdigit` guard on the user id, which refuses a non-numeric id before fetching the user. The rest of the command relays text to a user fetched from Discord.
- The random pick of `choose` and of `dice` is left out. The model states which options can be picked.
- Clocks are parameters. `datetime.utcnow()` is the `now` argument of `OnMessage`. The `until` passed to `timeout` is represented by the mute length in seconds.
- Failures of Discord calls are represented as follows:
  - The outcome of `timeout` is a parameter: success, or `discord.Forbidden`, which leads to the no-permission message.
  - A `Forbidden` raised by the notice send after a successful timeout is not modelled, and neither are other exceptions.
  - A refused join DM is modelled as an attempted DM. The `print` that reports it is left out.
  - In `repeat`, each send is an attempted send, because failures are swallowed.
- Formatted reply texts are structured actions: the muted notice and the level-up notice. The confirmations that the `set_*` commands send back are left out.
- The display names that `rank` looks up in the guild are left out. Each entry holds the user id.
- Text.LowerChar: lowers the ASCII letters A-Z only. Python's `str.lower` also lowers letters of other scripts.
- Text.Lower: inherits the difference of `LowerChar` and always keeps the length, where Python's `str.lower` can lengthen a string ("İ" becomes "i̇").
- Answers.LookupKey: inherits the difference of `Text.Lower`. Example: `set_answer("émile")` stores "émile". Python finds that answer for the message "Émile", but the model's lookup key is "Émile", so the model sends the keyword replies and credits 10 xp instead.
- Answers.StoredKey: inherits the difference of `Text.Lower` in the same way.
- Concurrency is not modelled: the handlers are `async`, and another handler may run at each `await`. Each handler is modelled as running to completion on its own. For example, a message that arrives while a timeout is awaited is not modelled.
