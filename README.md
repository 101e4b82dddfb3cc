# Meteor swarm, bark accent and ban webhook: a Dafny model

This project models three pieces of sequential logic of a space-station game server
(Andromeda-toolbox, C#) and proves properties of them with Dafny.

- **Meteor swarm station event** (`MeteorSwarm`, `meteor_swarm.dfy`). A game rule
  that, when added, draws a wave count and a first wave time and announces itself.
  On each `ActiveTick` it either does nothing (rule inactive, entity deleted, still
  waiting), fires a wave (the wave time advances by a fresh cooldown, the drawn number
  of meteors is spawned at the largest grid of a station, the wave counter drops by one
  and may switch `Ending` on), or, once `Ending` holds and the end time is reached,
  makes the end announcement and ends itself. The component is the class
  `MeteorSwarmRule`, whose methods are proved against the pure function `Step`. The
  trace function `Run` carries the lemmas: the counter never increases, `Ending` is
  never reset, no meteor spawns after `Ending`, `Ending` comes exactly after
  max(1, waves) waves, and the end happens at most once.
- **Bark accent** (`BarkAccent`, `bark_accent.dfy`). A chat message goes through a
  table of word substitutions, in table order. Then every `!` becomes one bark picked
  once per message. Then l, L, л and Л become r, R, р and Р.
  `String.Replace` is `Strings.Replace`: left to right, non-overlapping, one pass.
- **Ban and unban notifications** (`BanWebhook`, `ban_webhook.dfy`). The title,
  description, colour, duration text, display-name fallbacks and field table of a ban
  or an unban. How the fields become embed fields. The blank-URL early return. The
  one-shot `EnsureInitialized`.

`strings.dfy` holds the .NET string and number services these use: ordinal
`Replace`, `TrimStart`, `IsNullOrEmpty`, `IsNullOrWhiteSpace`, decimal `ToString()`
and `Convert.ToInt32(s, 16)`. `wrappers.dfy` holds `Option`, which stands for C#
nullable values.

Inputs from the host become parameters:
- Time is an integer tick count `now`.
- Every random draw is an injected value: the wave count, each cooldown, the batch size, each meteor's prototype and the bark.
- "Is the entity deleted" and the station/grid lookup are tick inputs.
- The announcement, audio, spawn and `ForceEndSelf` calls are recorded as `Event`s in the order they are made. `ForceEndSelf` also clears `ruleActive`, which the guard of every later tick reads.
- Each webhook HTTP request is recorded as a `Post`.

The model follows the code as written, including where it might surprise:
- activation does not reject an empty meteor table;
- the start sound is played even when there is no start text;
- `ActiveTick` returns nothing; what happened is recorded as the `Outcome` of `Step`;
- a tick that finds no station or no grid still moves the next wave time on by a fresh cooldown, without using up a wave.

C# dictionaries that are only ever added to enumerate in insertion order, so the
special-word table and the field tables are ordered lists of pairs. The field tables
are updated with `Put`, the indexer assignment.

## Model

| member | source | states |
|---|---|---|
| `MeteorSwarm.Activated` | Content.Server/StationEvents/Events/MeteorSwarmSystem.cs:28-31 | after activation the wave counter is the drawn wave count, the next wave time is now plus the drawn cooldown, not ending, rule active |
| `MeteorSwarm.StartEvents` | Content.Server/StationEvents/Events/MeteorSwarmSystem.cs:33-41 | the start text is announced iff `Announcement` is set, and first; the start sound is always played, last; nothing else is emitted, so one or two calls |
| `MeteorSwarm.MeteorSwarmRule.Added` | Content.Server/StationEvents/Events/MeteorSwarmSystem.cs:24-42 | the new component's state is `Activated(now, waves, cooldown)` and its calls are the start announcements |
| `MeteorSwarm.MeteorSwarmRule.ActiveTick` | Content.Server/StationEvents/Events/MeteorSwarmSystem.cs:44-135 | the in-place tick leaves exactly the state `Step` gives and appends exactly the calls `Step` gives |
| `MeteorSwarm.Step` | Content.Server/StationEvents/Events/MeteorSwarmSystem.cs:44-135 | a tick lowers the counter by one on a wave and otherwise keeps it; Ending is never reset and is switched on only by a wave; a tick finishes iff it deactivates the rule |
| `MeteorSwarm.StepGuarded` | Content.Server/StationEvents/Events/MeteorSwarmSystem.cs:49-54 | with the rule inactive or the entity deleted a tick changes no state and makes no call |
| `MeteorSwarm.StepWhileEnding` | Content.Server/StationEvents/Events/MeteorSwarmSystem.cs:57-78 | while ending: no spawn, counter and wave time kept; finishes iff now >= EndSoundTime, then makes the end calls and deactivates the rule; otherwise a no-op |
| `MeteorSwarm.EndEvents` | Content.Server/StationEvents/Events/MeteorSwarmSystem.cs:63-75 | the end text (first) iff `EndAnnouncement` is set, the end sound (just before the end) iff `EndSound` is set, then exactly one ForceEndSelf, last; nothing else, so one to three calls |
| `MeteorSwarm.StepEndCallsOnlyWhenFinished` | Content.Server/StationEvents/Events/MeteorSwarmSystem.cs:57-78 | no tick other than the finishing one calls ForceEndSelf or makes an end text or end sound call |
| `MeteorSwarm.StepWaiting` | Content.Server/StationEvents/Events/MeteorSwarmSystem.cs:81-82 | before the next wave time a tick that is not ending changes nothing and calls nothing |
| `MeteorSwarm.StepDeadlineReached` | Content.Server/StationEvents/Events/MeteorSwarmSystem.cs:84-91 | once the wave time is reached it advances by the drawn cooldown from the old deadline; a wave fires iff a grid is found; with no station or grid nothing else changes |
| `MeteorSwarm.StepWave` | Content.Server/StationEvents/Events/MeteorSwarmSystem.cs:101-134 | a wave spawns exactly the drawn count of configured meteors at the grid, lowers the counter by exactly one, and switches Ending on iff the counter reaches <= 0, with EndSoundTime = now + EndDelay |
| `MeteorSwarm.SpawnEvents` | Content.Server/StationEvents/Events/MeteorSwarmSystem.cs:101-123 | a wave's calls are n spawns, meteor i of the i-th picked prototype at the target grid |
| `MeteorSwarm.SpawnWave` | Content.Server/StationEvents/Events/MeteorSwarmSystem.cs:101-123 | the spawn loop produces exactly `SpawnEvents` for the drawn count |
| `MeteorSwarm.InactiveRunIsNoOp` | Content.Server/StationEvents/Events/MeteorSwarmSystem.cs:49-50 | once the rule is inactive, any sequence of ticks changes nothing and calls nothing |
| `MeteorSwarm.RunCounter` | Content.Server/StationEvents/Events/MeteorSwarmSystem.cs:57-134 | over any tick sequence the counter falls by exactly the number of waves, so it never increases; once ending, Ending stays on, no wave fires and no meteor spawns |
| `MeteorSwarm.FinishAtMostOnce` | Content.Server/StationEvents/Events/MeteorSwarmSystem.cs:46-78 | over any tick sequence at most one tick finishes, none when the rule starts inactive, and after it the rule is inactive |
| `MeteorSwarm.EndCallsPerFinish` | Content.Server/StationEvents/Events/MeteorSwarmSystem.cs:60-76 | over any tick sequence ForceEndSelf is called once per finish, and each end text and end sound at most once per finish |
| `MeteorSwarm.RunFromProgress` | Content.Server/StationEvents/Events/MeteorSwarmSystem.cs:125-134 | the counter equals the drawn count minus the waves fired, and Ending holds iff max(1, waves) waves have fired; this is preserved by every tick |
| `MeteorSwarm.RunFromActivation` | Content.Server/StationEvents/Events/MeteorSwarmSystem.cs:28-134 | from activation: Ending holds exactly after max(1, waves) waves, never more waves than that, and the end comes only after at least one wave |
| `MeteorSwarm.TwoWaveScenario` | Content.Server/StationEvents/Events/MeteorSwarmSystem.cs:81-134 | two waves of three, cooldown 10, end delay 60: waves at 10 and 20, Ending with end time 80, t=79 waits, t=80 finishes |
| `BarkAccent.Accentuate` | Content.Server/Speech/EntitySystems/BarkAccentSystem.cs:33-43 | the loop over the table in table order, then the bark and the four letter swaps, computes `Accent(message, bark)` |
| `BarkAccent.ApplyWordsUnchanged` | Content.Server/Speech/EntitySystems/BarkAccentSystem.cs:35-38 | a word table none of whose words occurs in the text leaves it unchanged |
| `BarkAccent.SwapsPointwise` | Content.Server/Speech/EntitySystems/BarkAccentSystem.cs:41-42 | the four swaps keep the length and map each character through l->r, L->R, л->р, Л->Р |
| `BarkAccent.SwapsRemoveL` | Content.Server/Speech/EntitySystems/BarkAccentSystem.cs:41-42 | after the swaps no l, L, л or Л remains |
| `BarkAccent.AccentHasNoL` | Content.Server/Speech/EntitySystems/BarkAccentSystem.cs:40-42 | an accented message contains no l, L, л or Л, whichever bark was picked |
| `BarkAccent.BarkReplacesEachBang` | Content.Server/Speech/EntitySystems/BarkAccentSystem.cs:40 | every `!` left by the word table becomes one copy of the same picked bark, and each bark's own `!` is not replaced again |
| `BarkAccent.AccentUnchanged` | Content.Server/Speech/EntitySystems/BarkAccentSystem.cs:33-43 | a message with no special word, no `!` and no l, L, л, Л is returned unchanged |
| `BarkAccent.AccentKeepsLength` | Content.Server/Speech/EntitySystems/BarkAccentSystem.cs:33-43 | on text without special words and `!` the output has the input's length and differs only by the letter swaps |
| `BarkAccent.WordStepIsLeftmost` | Content.Server/Speech/EntitySystems/BarkAccentSystem.cs:35-38 | each entry of the word table rewrites the message exactly at the leftmost non-overlapping occurrences of its word, putting its replacement there and keeping the text between them |
| `BarkAccent.OverlappingWordRewrittenOnce` | Content.Server/Speech/EntitySystems/BarkAccentSystem.cs:35-38 | of two overlapping occurrences only the first is rewritten: "угугу" becomes "вуфгу" |
| `BarkAccent.ReplaceDoesNotRecurse` | Content.Server/Speech/EntitySystems/BarkAccentSystem.cs:37-40 | one pass: "га" becomes "гаф" and "!" becomes " Гав!", not further |
| `BarkAccent.OnAccent` | Content.Server/Speech/EntitySystems/BarkAccentSystem.cs:45-48 | the event's message becomes the accented old message |
| `BarkAccent.OnAccentRelayed` | Content.Server/Speech/EntitySystems/BarkAccentSystem.cs:50-53 | the relayed event's inner message becomes the accented old message |
| `Strings.Replace` | Content.Server/Speech/EntitySystems/BarkAccentSystem.cs:37-42 | no occurrence: unchanged; a character absent from the input and the replacement stays absent; a one-character pattern absent from its replacement is gone; one-for-one keeps the length |
| `Strings.ReplaceIsLeftmostSplit` | Content.Server/Speech/EntitySystems/BarkAccentSystem.cs:35-38 | for a pattern of any length: the text is the pattern joined between parts cut at its leftmost non-overlapping occurrences (none starts inside a part, none is in the last one), and the result joins the same parts with the replacement |
| `Strings.ReplaceCharIsExpand` | Content.Server/Speech/EntitySystems/BarkAccentSystem.cs:40 | replacing one character is the same as expanding each of its occurrences on its own, by a right-to-left reference definition |
| `Strings.ReplaceCharPointwise` | Content.Server/Speech/EntitySystems/BarkAccentSystem.cs:41-42 | a one-for-one character replacement keeps the length and changes exactly the matching positions |
| `Strings.NatToDecimal` | Content.Server/Discord/BanWebhookManager.cs:112 | the decimal text of a count is a non-empty string of digits without a leading zero, and its first digit is `0` only for zero |
| `Strings.DecimalRoundTrip` | Content.Server/Discord/BanWebhookManager.cs:112 | the decimal text of n reads back as n |
| `Strings.IntToDecimal` | Content.Server/Discord/BanWebhookManager.cs:158 | the text of an int starts with `-` iff the int is negative, followed by decimal digits with no leading zero (a lone `0` only for zero) |
| `Strings.DecimalIntRoundTrip` | Content.Server/Discord/BanWebhookManager.cs:158 | the text of an int reads back as the int: its sign, then the digits of its magnitude |
| `Strings.TrimStart` | Content.Server/Discord/BanWebhookManager.cs:68 | `TrimStart('#')` removes exactly the leading run of `#`, leaving a suffix that does not start with `#` |
| `Strings.ParseHex32` | Content.Server/Discord/BanWebhookManager.cs:68 | the colour parses iff it is non-empty hex digits (either case) whose value fits 32 bits; the result is the signed 32-bit value congruent to the digits' value modulo 2^32, negative iff the top bit is set |
| `Strings.ParseHex32LeadingZero` | Content.Server/Discord/BanWebhookManager.cs:68 | a leading zero digit does not change the modelled parse: a string of hex digits keeps its value, and any other string stays rejected |
| `Strings.HexRoundTrip` | Content.Server/Discord/BanWebhookManager.cs:68 | every 32-bit value written in hex parses back to its signed 32-bit reading |
| `BanWebhook.Put` | Content.Server/Discord/BanWebhookManager.cs:163 | `dict[k] = v` makes k map to v and keeps every other key's value; an existing key keeps its place, a new one goes last |
| `BanWebhook.DurationText` | Content.Server/Discord/BanWebhookManager.cs:111-113 | the duration is "Навсегда" exactly when minutes is absent or 0; otherwise it is decimal digits not starting with `0`, then " минут" |
| `BanWebhook.DurationRoundTrip` | Content.Server/Discord/BanWebhookManager.cs:111-113 | the duration text reads back as the minutes when they are present and > 0, and as none otherwise |
| `BanWebhook.DisplayName` | Content.Server/Discord/BanWebhookManager.cs:115-116 | the username if present, else the user id's text, else the fallback |
| `BanWebhook.BanFields` | Content.Server/Discord/BanWebhookManager.cs:122-129 | the ban fields have exactly the five keys, in order, holding the given values |
| `BanWebhook.BanNotification` | Content.Server/Discord/BanWebhookManager.cs:104-133 | five fields with admin name (fallback "Система"), target name (fallback "N/A"), reason, duration and severity; role ban iff role non-empty, which selects role colour, title and description, otherwise the plain ones |
| `BanWebhook.BanTitleNamesRole` | Content.Server/Discord/BanWebhookManager.cs:118-120 | the ban title names the role exactly for a role ban and names no role otherwise |
| `BanWebhook.UnbanNotification` | Content.Server/Discord/BanWebhookManager.cs:146-168 | unban colour; fields "Администратор" and "ID бана" with the ban id's text, plus "Роль" only for a role unban (3 keys, else 2); the matching titles and descriptions |
| `BanWebhook.UnbanIdRoundTrip` | Content.Server/Discord/BanWebhookManager.cs:155-159 | the "ID бана" field reads back as the ban id |
| `BanWebhook.EmbedFieldsOf` | Content.Server/Discord/BanWebhookManager.cs:53-62 | one embed field per entry, in order, with the same name and value and inline set |
| `BanWebhook.BuildEmbedFields` | Content.Server/Discord/BanWebhookManager.cs:53-62 | the `foreach` builds exactly `EmbedFieldsOf(fields)` |
| `BanWebhook.Deliver` | Content.Server/Discord/BanWebhookManager.cs:47-81 | nothing is built or sent iff the URL is null or white space; a colour that does not parse is rejected; otherwise one post to the URL of one embed with the title, description, parsed colour and mapped fields |
| `BanWebhook.BanWebhookManager.EnsureInitialized` | Content.Server/Discord/BanWebhookManager.cs:34-41 | afterwards the manager is initialised with the "admin.bans.webhook" log; a second call changes nothing |
| `BanWebhook.BanWebhookManager.SendWebhook` | Content.Server/Discord/BanWebhookManager.cs:43-92 | initialises, then appends the post `Deliver` gives, or logs one error for a rejected colour, or does nothing for a blank URL |
| `BanWebhook.BanWebhookManager.SendBanWebhook` | Content.Server/Discord/BanWebhookManager.cs:94-136 | sends exactly the ban notification through `SendWebhook` |
| `BanWebhook.BanWebhookManager.SendUnbanWebhook` | Content.Server/Discord/BanWebhookManager.cs:138-171 | sends exactly the unban notification through `SendWebhook` |

## Left out

- Meteor geometry and physics are not modelled: the distance band, the random angle, the perpendicular sub-offset, `GetWorldAABB`, `RotateVec`, `Normalized` and `ApplyLinearImpulse`. Each meteor is one `SpawnMeteor(proto, grid)` call. These are float vector numerics and physics-engine calls.
- The directional angle policy (`new Random(uid.Id).NextAngle()` versus `RobustRandom.NextAngle()`) is not modelled, and so the `NonDirectional` flag is not modelled either. It only affects geometry.
- Random draws are not tied to the `Waves`, `WaveCooldown` and `MeteorsPerWave` ranges: they are arbitrary integers. No proved property depends on the ranges. Only the prototype picks are constrained, to entries of `Meteors`.
- `MeteorSwarm.MeteorSwarmRule.ActiveTick`, `MeteorSwarm.Step`, `MeteorSwarm.Run` and every lemma about them (`StepGuarded`, `StepWhileEnding`, `StepWaiting`, `StepDeadlineReached`, `StepWave`, `StepEndCallsOnlyWhenFinished`, `InactiveRunIsNoOp`, `RunCounter`, `FinishAtMostOnce`, `EndCallsPerFinish`, `RunFromProgress`, `RunFromActivation`): `RobustRandom.Pick` on an empty `Meteors` table throws. That case is excluded by `ValidInput` (and `ValidInputs` for a tick sequence) rather than modelled as an exception.
- A rule that the host ends some other way is not modelled: `ruleActive` is cleared only by `ForceEndSelf`. The lemmas about inactive rules hold whatever made the rule inactive.
- `Loc.GetString`, `Filter`/`UserHasJoinedGame`, the gold colour override and the audio parameters are not modelled. Events carry the locale ids and sound specifiers.
- `TimeSpan.FromSeconds(float)` is not modelled: times, cooldowns and `EndDelay` are integer ticks.
- HTTP POST, JSON serialisation, `StringContent`, the `DateTimeOffset.UtcNow` embed timestamp and the response status check are not modelled. A request is recorded as a `Post` whatever its response. Network I/O and library serialisation are out of scope.
- `Strings.ParseHex32`: only plain hexadecimal digits are accepted. `Convert.ToInt32(s, 16)` also accepts a `0x`/`0X` prefix and a leading `+`, which the model treats as a rejected colour.
- `Strings.ParseHex32LeadingZero`: holds of the modelled parse only. For the library a leading `0` can turn a rejected string into an accepted one (`"x1"` throws but `"0x1"` gives 1) or an accepted one into a rejected one (`"+1"` gives 1, `"0+1"` throws). For strings of plain hex digits the model and the library agree.
- `Strings.IntToDecimal`: the negative sign is taken to be `-`. `int.ToString()` writes the current culture's `NumberFormatInfo.NegativeSign`, which is `-` in the invariant culture and most others.
- `BanWebhook.BanWebhookManager.SendWebhook`: only the exception from colour parsing is modelled (one error logged, nothing sent). Exceptions thrown by the HTTP client are not. The log text is not modelled either, only the count of errors logged.
- `NetUserId.ToString()` is not modelled: a user id is represented by the text it renders.
- Strings are sequences of Unicode scalar values, not UTF-16 code units. Every character the core compares lies in the Basic Multilingual Plane, where the two agree.
- The `async`/`await` structure of the webhook methods is not modelled; each send is one sequential step.
- Content.Server/Administration/Commands/PardonCommand.cs is not part of this model. Its logic is argument checks around asynchronous database calls and shell output.
