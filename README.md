# Welcome and auto-role bot: a verified model of its settings and role logic

This project models, in Dafny, the logic of a Discord bot that welcomes and
says goodbye to members and grants them configured "auto-roles". The Discord
and JSON plumbing around that logic is not modelled. What is modelled:

- **Settings** (`settings.dfy`). The per-server record covers the welcome and
  goodbye channels and templates, the mention flag and the auto-role list.
  The store maps server ids to records. The model includes the store that
  `load_config` creates when the file is missing, and the
  `config.get(id, config["default"])` lookup every reader uses. It also
  includes the two `dict.update` merges done by `/config-welcome` and
  `/config-goodbye`.
- **Auto-role list** (`autoroles.dfy`). `append` only when the id is absent
  and `remove` only when it is present, on an ordered list.
- **Progress arithmetic** (`progress.dfy`). The percentage after member `i`,
  the throttle that decides whether the status message is edited, the
  ten-segment bar, and the members at which edits happen.
- **Backfill engine** (`backfill.dfy`). `/auto-role-ajout-rapide` is the
  nested loop over the human members and the configured roles. It keeps its
  `added`/`skipped` counters, emits throttled progress edits and ends with a
  final summary. It is a method with loop invariants, proved against a
  recursive specification (`RunAfter`). The lemmas about that specification
  cover the counters, the coverage, the order, the edits, a re-run and a
  worked example.
- **Member events** (`events.dfy`). The welcome message and the role loop of
  `on_member_join`. The goodbye message of `on_member_remove`.
- **Bot state** (`bot.dfy`). A class holding the in-memory `config` and the
  configuration file's content. Its constructor and methods are the
  commands and events, and they update both stores as the code does.

Discord lookups and calls are modelled as parameters:

- the set of channel ids the bot can reach (`get_channel`);
- the set of role ids that resolve (`get_role`);
- the outcome of each role grant (`add_roles`).

In the backfill, a grant outcome is a function of the member's 1-based
position and the role id. In the join loop, it is a function of the role id
and can be `Granted`, `Forbidden` or another error. The configuration file is
`Option<Store>`, and `None` means the file does not exist.

Facts about the code that a reader might not expect, each proved in the
model:

- **Edit count.** The throttle does not bound the number of progress edits
  by 11. `Progress.TwoHundredMembersEmitTwenty` shows 20 edits for 200
  members; `Progress.AtMostTenEditsUpToHundred` proves at most 10 edits for
  up to 100 members.
- **23 members.** With 23 members the edits, at multiples of ten percent plus
  the last member, happen at members 7, 14 and 23, and two grantable roles
  give 46 added and 0 skipped (`Progress.TwentyThreeMembers`,
  `Backfill.TwentyThreeMembersTwoRoles`).
- **Re-run.** Unresolvable roles are never counted. A second run with the
  same grant outcomes adds nothing and skips exactly the grants that failed
  the first time (`Backfill.RerunAddsNothing`).
- **Join errors.** `on_member_join` catches only `discord.Forbidden`, so any
  other error ends its role loop (`Events.JoinAbortsOnFailure`). The backfill
  catches every `Exception` and counts it as skipped. An error while
  rendering or sending the welcome message ends the handler before the role
  loop, so the member gets no role (`BotState.Bot.OnMemberJoin`).
- **Shared role lists.** Only `/config-autoroles` uses `deepcopy`.
  `/config-welcome` and `/config-goodbye` give a server the file does not
  know a shallow copy of the in-memory default, whose `auto_roles` is the
  default's own list object. The model records which list object each
  in-memory record holds (`BotState.ListId`), or that it has no
  "auto_roles" key at all. An auto-role change on a server sharing the
  default's list changes the list in place, so the default, in memory and in
  the saved file, and every server sharing it receive the change
  (`BotState.Bot.ConfigAutoroles`, `BotState.SharedDefaultListExample`).
  When the default has no "auto_roles" key there is nothing to share:
  `/config-welcome` writes a new empty list into the copy, `/config-goodbye`
  leaves the copy without the key, and a later add gives it a new list, so
  the default keeps no roles (`BotState.KeylessDefaultWelcomeExample`,
  `BotState.KeylessDefaultGoodbyeExample`).
- **Command defaults.** The text `/config-goodbye` stores when given no
  message (`Events.CommandGoodbye`, " Au revoir {user.mention} 👋") is not
  the departure fallback `Events.DefaultGoodbye`; the welcome command's
  default equals the join fallback.

## Model

| member | source | states |
|---|---|---|
| Settings.DefaultSettings | main.py:29-35 | The template record has no welcome channel, mention on, no auto-roles, and no goodbye or message keys |
| Settings.LoadConfig | main.py:17-35 | A missing file gives a store with exactly the key "default" holding the template; an existing file gives its content |
| Settings.Lookup | main.py:222 | `get` with fallback: the server's own record when its key is present, the fallback otherwise |
| Settings.Resolve | main.py:355 | With the store's own default as fallback: the stored record for the server, else the default; the result is always a stored record |
| Settings.FreshStoreResolvesToDefault | main.py:26-35 | With no file, every server resolves to the default template |
| Settings.ResolvePrefersOwnEntry | main.py:394 | A server's stored record wins over the default; storing it leaves the default's resolution unchanged |
| Settings.WelcomeUpdate | main.py:99-103 | Sets exactly the welcome channel and message; goodbye keys, mention flag and auto-roles are kept |
| Settings.GoodbyeUpdate | main.py:146-149 | Sets exactly the goodbye channel and message; welcome keys, mention flag and auto-roles are kept |
| Settings.UpdatesCommute | main.py:146-149 | The welcome and goodbye merges commute, and each is idempotent |
| AutoRoles.AddRole | main.py:190-193 | The id is in the result; membership is the old ids plus the id; the old list is a prefix; length grows by one exactly when the id was absent; no duplicates are introduced |
| AutoRoles.RemoveRole | main.py:201-204 | Length drops by one exactly when the id was present; no other id is lost or gained; an absent id leaves the list unchanged; on a duplicate-free list the id is gone afterwards |
| AutoRoles.RemoveRoleShape | main.py:203 | Removal deletes only the first position holding the id; every other element keeps its order |
| AutoRoles.AddThenRemove | main.py:190-204 | Adding an absent id and then removing it restores the list |
| AutoRoles.RemoveThenAdd | main.py:190-204 | On a duplicate-free list, removing a present id and adding it back moves it to the end and keeps the same multiset |
| Progress.Percent | main.py:319 | The percentage after member i of total is at most 100, and exactly 100 at the last member |
| Progress.PercentFloor | main.py:319 | The percentage is the floor of i*100/total |
| Progress.PercentStrictlyIncreasing | main.py:319 | With at most 100 members the percentage strictly increases from member to member |
| Progress.Repeat | main.py:321-322 | String repetition: n copies of the character, empty when n is not positive |
| Progress.Bar | main.py:321-323 | For a percentage in 0..100 the bar has exactly 10 segments, percent/10 filled followed by empty ones |
| Progress.EmitPointsMembers | main.py:320 | Member x (1..k) gets a progress edit exactly when its percentage is a multiple of 10 or it is the last member |
| Progress.EmitPointsIncreasing | main.py:304-320 | The emitting members are in 1..k and strictly increasing |
| Progress.LastMemberEmits | main.py:320 | The last member always produces the final progress edit |
| Progress.AtMostTenEditsUpToHundred | main.py:319-320 | With 1 to 100 members there are at most 10 progress edits |
| Progress.TwentyThreeMembers | main.py:319-320 | With 23 members the edits happen at members 7, 14 and 23 |
| Progress.TwoHundredMembersEmitTwenty | main.py:319-320 | With 200 members the throttle emits 20 edits, so no bound of 11 holds |
| Backfill.Humans | main.py:298 | The snapshot is no longer than the member list and contains no bot |
| Backfill.HumansMembers | main.py:298 | The snapshot holds exactly the non-bot members |
| Backfill.HumansAppend | main.py:298 | The snapshot of a concatenation is the concatenation of snapshots, so member order is kept |
| Backfill.RunBackfill | main.py:270-335 | An empty role list gives the nothing-configured outcome and nothing else does; a completed run equals the specification run over the snapshot, with summary counters as counted; added+skipped equals the attempts and is at most total times roles; every edit is throttled, at most 100% and 10 segments; the last edit is at the last member with the final counters |
| Backfill.ProcessMembers | main.py:304-326 | The outer loop yields the specification's attempt log and edits, and counters equal to the granted and failed counts |
| Backfill.GrantMemberRoles | main.py:305-316 | The inner loop appends the member's specified attempts to the log and keeps the counters equal to the counts |
| Backfill.RoleStep | main.py:305-316 | An unresolvable or held role changes neither counter; a successful grant adds one to added only; a failed grant adds one to skipped only |
| Backfill.CountSplit | main.py:310-316 | Every attempt is counted exactly once, as added or as skipped |
| Backfill.MemberAttemptsExact | main.py:305-316 | A member's attempts are exactly its resolvable configured roles that it lacks, each with its outcome |
| Backfill.RunBounds | main.py:304-316 | After k members there are at most k times the number of roles attempts |
| Backfill.RunAttemptsSound | main.py:305-316 | Every attempt is for a processed member and a configured, resolvable role it lacked, with that grant's outcome |
| Backfill.RunAttemptsComplete | main.py:305-311 | Every configured, resolvable role a processed member lacked was attempted on it |
| Backfill.RunAttemptsOrdered | main.py:304-305 | Attempts are grouped by member in snapshot order |
| Backfill.CountersMonotone | main.py:304-316 | Counters after j members never exceed the counters after k >= j members |
| Backfill.RunEditsFaithful | main.py:319-326 | Every edit shows its member's percentage and bar, and the counters as they stood right after that member |
| Backfill.RunEditsShape | main.py:319-326 | Every edit is throttled, for a member within 1..total, at most 100% and with a 10-segment bar |
| Backfill.LastEditIsFinal | main.py:320-335 | With members, the last edit is at the last member and shows the final counters |
| Backfill.EditCountersMonotone | main.py:324-326 | The counters shown by successive edits never decrease |
| Backfill.RerunAttempts | main.py:309-311 | With the same outcomes, a run on the snapshot where each member also holds its granted roles attempts exactly the failed grants |
| Backfill.RerunAddsNothing | main.py:309-316 | That second run adds nothing and skips exactly as many grants as the first |
| Backfill.RunAllGranted | main.py:304-312 | When nobody holds a configured role, all resolve and all grants succeed, the run adds members times roles and skips none |
| Backfill.TwentyThreeMembersTwoRoles | main.py:304-326 | 23 such members and two roles: 46 added, 0 skipped, and edits at members 7, 14 and 23 |
| Events.Announcement | main.py:366-370 | A message is sent exactly when the channel is set, non-zero and reachable; it goes to that channel with the record's template, else the fallback |
| Events.WelcomeMessage | main.py:359-370 | A join announces in the welcome channel when it is set, non-zero and reachable, with the configured template or the default welcome text |
| Events.GoodbyeMessage | main.py:398-405 | A departure announces in the goodbye channel when it is set, non-zero and reachable, with the configured template or the default goodbye text |
| Events.Sent | main.py:366-371 | A message goes out exactly when there is one, its template renders for the member and its send succeeds, and it is that message |
| Events.WelcomeAfterConfig | main.py:359-370 | After the welcome command, a join sends the configured message to the configured channel when that channel is non-zero and reachable, and nothing otherwise |
| Events.GoodbyeAfterConfig | main.py:398-405 | After the goodbye command, a departure sends the configured message to the configured channel when that channel is non-zero and reachable, and nothing otherwise |
| Events.UpdatesIndependent | main.py:146-149 | The goodbye command does not change what a join announces, and the welcome command does not change departures |
| Events.JoinRoles | main.py:378-387 | The join role loop computes the specified run: resolvable roles are granted in order, a permission error is passed over, and any other error ends the loop |
| Events.JoinRolesPrefix | main.py:378-387 | The granted roles are a prefix of the configured roles that resolve |
| Events.JoinAttemptsSound | main.py:378-382 | Each grant is for a configured, resolvable role and records that role's outcome |
| Events.JoinAbortsOnFailure | main.py:381-385 | The loop ends early exactly when some resolvable configured role fails with an error other than a permission error; that is then the last grant, and no earlier grant failed that way |
| Events.JoinGrantsAllResolvable | main.py:378-387 | Without such an error, every resolvable configured role is granted, in configuration order |
| BotState.UpdatedRolesFacts | main.py:186-209 | The auto-role command keeps the list duplicate-free, leaves the role present after an add and absent after a remove, and changes (and saves) the list exactly when it confirms a change |
| BotState.WithListRoles | main.py:192-203 | An in-place change of one list shows the new roles in every record holding it and changes nothing else |
| BotState.Bot.constructor | main.py:46 | Start-up loads the configuration from the file, or creates the default store; every loaded record holds a list object of its own, except the records named as lacking the "auto_roles" key, which hold none |
| BotState.Bot.ConfigWelcome | main.py:82-109 | Reloads the file. The message is the given one or the command's default text. The record is the file's, or a shallow copy of the in-memory default. It holds the default's list when it is such a copy and the default has one; otherwise `get` yields the reloaded list or a new one. Merges the welcome update, which writes the key, saves the reloaded store with the record, and puts the record into memory |
| BotState.Bot.ConfigGoodbye | main.py:129-155 | As the welcome command, with the goodbye merge and the goodbye command's default text; the merge writes no "auto_roles" key, so a copy of a default without it, or a reloaded record without it, holds no list |
| BotState.Bot.Share | main.py:96-109 | The record just put into memory holds the given list, none, or the next new list; records sharing a list still agree and a record without a list has no roles |
| BotState.Bot.ConfigAutoroles | main.py:176-209 | The in-memory store, list identities and list count become those of AutorolesAfter; the whole store is saved only when the list changed; the reply follows presence |
| BotState.Bot.DeepCopyDefault | main.py:182-183 | The new memory is CopiedState: a record equal to the default, with a new list or none when the default has none |
| BotState.Bot.AddAutoRole | main.py:190-198 | Appends in place and saves when the role is absent, so every record sharing the list gets the role, after giving a record without the key the new list `get` returned; otherwise changes nothing and replies that it is already configured |
| BotState.Bot.RemoveAutoRole | main.py:201-209 | Removes in place and saves when the role is present, so every record sharing the list loses it; otherwise changes nothing and replies that it was not configured |
| BotState.Bot.ViewConfig | main.py:216-230 | The view shows the resolved welcome channel only when it is set and non-zero, plus the mention flag and the role list |
| BotState.Bot.AutoRoleBackfill | main.py:270-298 | The roles come from the reloaded file with the in-memory default as fallback, and the engine's outcome is the specification run over them |
| BotState.Bot.OnMemberJoin | main.py:352-387 | The welcome message of the resolved in-memory settings is sent when it renders and its send succeeds; the join role loop runs exactly when announcing raised no error, and then computes the specified run |
| BotState.Bot.OnMemberRemove | main.py:391-410 | The goodbye message of the resolved in-memory settings is sent exactly when it renders and its send succeeds, with the configured template or the default goodbye text |
| BotState.SharedDefaultListExample | main.py:94-194 | With no file, the welcome command on a server and then an auto-role add there put the role into the default's list, in memory and in the saved file, so every server without a record resolves to it |
| BotState.Bot.ChangeRoles | main.py:186-209 | The new memory is ChangedState; the whole store is saved exactly when the list changed; the reply follows presence |
| BotState.CopiedState | main.py:182-183 | A server without a record gets a copy of the default, holding a new list, or none exactly when the default has none; no other record or list changes |
| BotState.ChangedState | main.py:186-204 | The server's roles become the add or remove result; no other record's list changes |
| BotState.AutorolesAfter | main.py:182-204 | After the command the store has the server's key and the server has the add or remove result of its own or the default's roles |
| BotState.AutorolesFrame | main.py:182-204 | On the deep-copy path the default is unchanged; a default sharing the server's list gets the same roles; records holding another list do not change |
| BotState.KeylessDefaultWelcomeExample | main.py:94-194 | With a file whose default has no "auto_roles" key, the welcome command on a server and then an add there give the role to that server only; the default, in memory and in the file, and unconfigured servers keep no roles |
| BotState.KeylessDefaultGoodbyeExample | main.py:141-194 | The same with the goodbye command, whose copy has no key until the add gives it a new list |

## Left out

- Discord gateway calls are parameters: a reachable-channel set, a resolvable-role set, grant outcomes, whether a welcome or goodbye template renders for the member and whether its send succeeds. This covers `add_roles`, `send`, `get_channel`, `get_role`, the intents, `setup_hook` and `bot.run`. They are asynchronous and foreign. Failures of the commands' `send_message` and of the status `edit` are not modelled.
- JSON file I/O. The file is an in-memory `Option<Store>`, with no parse errors, no formatting and no partial write. The token read from the environment is not modelled.
- Template rendering with `format(user=member)` is reduced to whether it succeeds, a parameter. Its text uses Python's format language with attribute access on a Discord object; `KeyError`, `ValueError` and `AttributeError` from a stored template are all "does not render". The model returns the unrendered template.
- Message text is not modelled. The confirmations, the `/aide` text, the status-message wording and the comma-joined role mentions are reduced to structured data: replies, counters, the bar and the role list.
- Progress.Percent: models `int((i / total) * 100)` as the integer floor `(i * 100) / total`. The float computation can yield one less, e.g. `29/100*100` is `28.999…` and truncates to 28.
- Object identity is modelled only for the auto-role lists. The other values in a record are immutable, and the reloaded store of the welcome and goodbye commands is discarded after its save, so no other sharing is visible.
- Concurrency is not modelled: interleaved commands and events, lost updates between reload and save, and concurrent backfills. Each method runs atomically on the state. The divergence between the in-memory store and the file is kept as the code has it: `/config-autoroles`, `voir_config` and the events read memory, and the welcome, goodbye and backfill commands reload the file.
- Backfill.RunBackfill: a member's held roles are the snapshot taken when the run starts. Changes during the run, such as other grants or a member leaving, are not seen.
- Backfill.RunBackfill: cancellation and errors that are not `Exception`s (`BaseException`) are not modelled. They would escape the loop.
- BotState.Bot.constructor: requires an existing file to contain "default". A file without it makes every reader raise `KeyError`, which is not modelled. The store type does not say which records lack the "auto_roles" key, so the constructor takes the loaded records without it as a parameter.
- Permission checks on the commands are not modelled: `has_permissions`.

