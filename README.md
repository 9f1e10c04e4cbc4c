# WCS-Maestro dialogue-routing engine, in Dafny

WCS-Maestro sits in a multi-party chat room. For each incoming text it
decides which participant should receive the message next. It then delivers
the message to that participant and copies it to everyone else. This
project models the engine's logic in `index.js`:

- **Participant registry.** `known_participants` is an insertion-ordered
  list of ids with optional names. Presence polling adds unnamed ids to it.
  Every speaker is added or renamed.
- **Dialogue backlog.** `dialogue_backlog` holds the recent messages shown
  to the language-model oracle.
- **Prompt.** The system prompt lists the known participants. The backlog
  becomes one user turn per message.
- **Target resolution.** The oracle's free-text answer is matched against
  the registry. When nothing matches, a bounded random-retry ladder runs.
  Its last resort is the sender itself.
- **Dispatch.** One visible text goes to the target. A data send goes to
  every other registry entry.
- **`.env` reading.** Each non-blank line `key=value` sets a configuration
  entry.

The registry and the backlog are the fields of the class
`Engine.Maestro`. Its methods update them in place. Each method is proved
against specification functions in the modules `Registry`, `Backlog`,
`Prompt` and `Dispatch`, and lemmas there state the properties. `Strings`
models the JavaScript string operations the engine relies on. `Env` models
`.env` parsing. `Scenarios` works through concrete rooms.

External pieces become parameters:
- The oracle's reply is an `OracleReply`: a failed call, or a completion
  whose content may be null.
- `Math.random` draws are a sequence of registry indices.
- The engine's own account id (`ENV.USER`) is passed to the presence merge.
- Transport sends are returned as `Send` records, not performed.

## Notable behaviour of the code

The model keeps these behaviours of `index.js` as written:

- **Backlog size.** `MAX_BACKLOG_AMOUNT` is 10 (index.js:19). `appendToBacklog`
  trims only while more than 10 messages are held and then pushes. So once
  it is full the backlog holds 11 messages (`Backlog.AppendAllWindow`).
- **Sender answers.** The instructions tell the oracle that the name it gives
  should never be the sender's (index.js:27-28). The lookup accepts any
  match, the sender included (`Registry.ResolveMatched`).
- **Lookup order.** Each entry is tested on its id and then its name before
  the next entry is tried. So an earlier entry matching by name beats a
  later entry matching by id (`Registry.MatchIndex`).
- **Sixth draw.** The fallback retries while the draw is the sender, at most
  five times. Once five retries have been made, the target is the sender,
  even when the sixth draw picked someone else (index.js:181-190,
  `Registry.ResolveUnmatched`, `Scenarios.FailedOracleFallsBack`).
- **Copy to the sender.** The data copies go to every registered id other
  than the target. The sender gets one too, unless it is the target
  (`Dispatch.PlanNotifiesOthers`, `Scenarios.RoomOfThree`).

## Model

| member | source | states |
|---|---|---|
| `Strings.TrimSpec` | index.js:125 | `trim()` removes the JavaScript whitespace at the start of the text, and only whitespace follows the result; the result neither starts nor ends with whitespace |
| `Strings.TrimEmptyIffBlank` | index.js:125 | the trimmed text is empty exactly when the text is all whitespace |
| `Strings.Split` | index.js:126 | `split("=")`: at least one part, and no part contains the separator |
| `Strings.SplitJoin` | index.js:126-127 | joining the parts of a split with the separator gives back the text |
| `Strings.SplitLines` | index.js:123 | `split(/\r\n|\n/g)`: at least one line, and no line contains `\n` |
| `Strings.SplitLinesJoin` | index.js:123 | joining the lines with `\n` gives the text with the `\r` of every `\r\n` break removed, and nothing else changed |
| `Strings.SplitLinesCount` | index.js:123 | there is one more line than there are `\n` characters |
| `Env.ParseLineSpec` | index.js:126-127 | the key is the text before the first `=` and the value everything after it, later `=` kept; a line without `=` is all key with an empty value |
| `Env.ApplyLinesLookup` | index.js:124-128 | a key's value is that of the last non-blank line naming it; a key no line names keeps its earlier value or stays absent |
| `Env.ApplyLinesKeys` | index.js:124-128 | reading removes no key; a key is present exactly when it was before or some non-blank line names it |
| `Env.ReadKeepsDefaultKeys` | index.js:11-17 | reading a file over the defaults keeps all five configuration keys present, whatever the file holds |
| `Env.ReadEnvFile` | index.js:121-129 | the loop over the lines yields the configuration that applying the non-blank lines in order specifies |
| `Registry.MergePresenceExtends` | index.js:56-71 | presence merging only appends: old entries and their names are unchanged and every added entry is unnamed |
| `Registry.MergePresenceKnown` | index.js:56-71 | afterwards an id is known exactly when it was known before or was fetched and is not the engine's own account |
| `Registry.MergePresenceUnique` | index.js:56-71 | merging never registers an id twice, even when the fetched list repeats it |
| `Registry.MergePresenceOrder` | index.js:56-71 | added entries appear in the order in which their ids were first fetched |
| `Registry.FindUser` | index.js:141-147 | the index of the first entry with the id, or the length when the id is unknown |
| `Registry.ObserveSpeaker` | index.js:139-154 | a known speaker's first entry gets the new name and every other entry is unchanged; an unknown speaker is appended once, named; the speaker is known afterwards; unique ids stay unique |
| `Registry.ObserveSpeakerRenamesOnly` | index.js:141-147 | with unique ids, only the speaker's own entry changes, and only its name |
| `Registry.ObserveSpeakerIdempotent` | index.js:139-154 | observing the same speaker twice is the same as observing it once |
| `Registry.MatchIndex` | index.js:159-172 | the first entry, in registry order, whose id equals the text or whose non-null name equals it; no earlier entry matches by id or by name |
| `Registry.FirstOther` | index.js:178-190 | the fallback pick is `from` exactly when every draw named `from`; otherwise it is a drawn id |
| `Registry.FirstOtherAt` | index.js:181-186 | when draw `k` is the first not naming `from`, the pick is draw `k`'s id |
| `Registry.ResolveIsKnown` | index.js:156-193 | once the sender is registered, the resolved target is always a registered id |
| `Registry.ResolveMatched` | index.js:159-172 | an oracle text that names an entry resolves to it, the sender included, whatever the draws |
| `Registry.ResolveUnmatched` | index.js:174-193 | without a match, the target is the sender exactly when the first five draws all named the sender; otherwise it is a drawn id other than the sender |
| `Backlog.AppendedKeepsNewest` | index.js:214-218 | after an append the new message is last, and before it stand the newest 10 old messages, or all of them when there were fewer |
| `Backlog.AppendedWindow` | index.js:214-218 | from at most 11 messages, one append keeps the newest 11 of old and new |
| `Backlog.AppendAllWindow` | index.js:214-218 | after any run of appends the backlog is exactly the newest 11 messages |
| `Backlog.OldestSurvivor` | index.js:214-218 | after N > 11 appends from empty, the oldest message held is the (N-10)-th appended |
| `Prompt.JoinPartAt` | index.js:246 | in a `join`, part i sits at its offset and the separator follows it |
| `Prompt.PromptListsParticipants` | index.js:238-248 | the system prompt, for any instruction text and so for `SYS_PROMPT`, starts with the instructions and the participants header. Then come the participants' labels in registry order, separated by `", "`; a label is the name when it is set and non-empty, and the id otherwise. The prompt ends right after the last label |
| `Prompt.EmptyRoomPrompt` | index.js:238-248 | with no known participant the prompt ends right after the participants header |
| `Prompt.BacklogAsMessagesSnoc` | index.js:223-233 | the turns follow the backlog: one more message adds, at the end, its user turn, named by the payload name and reading "name: " and the trimmed text |
| `Prompt.RequestEndsWithIncoming` | index.js:254-262 | the request built after appending a message is the system prompt, then the turns of the newest 10 earlier messages in order, and the incoming message as the last turn |
| `Prompt.EmptyReplyMatchesOnlyEmpty` | index.js:272-278 | a failed call or null content is read as the empty text, which matches an entry only when some id or name is empty; otherwise the fallback decides |
| `Dispatch.Others` | index.js:204-207 | the data recipients are exactly the registered ids other than the target |
| `Dispatch.OthersInOrder` | index.js:204-207 | with unique ids the data recipients follow registry order: each recipient's entry stands before the next recipient's |
| `Dispatch.NoticesSnoc` | index.js:204-206 | one more recipient adds one more data send, at the end |
| `Dispatch.PlanShape` | index.js:195-207 | an empty target sends nothing; otherwise the first send is the only visible one and goes to the target alone, and every later send is a data send to one registered id that is not the target |
| `Dispatch.PlanNotifiesOthers` | index.js:204-207 | an id receives a data send exactly when it is registered, is not the target and the target is non-empty; the sender is included |
| `Dispatch.OthersCount` | index.js:204-207 | with unique ids, a registered target excludes exactly one entry from the data sends |
| `Dispatch.PlanCount` | index.js:195-207 | with unique ids and a registered target, there are exactly as many sends as registry entries |
| `Engine.Maestro.constructor` | index.js:38-43 | the engine starts with an empty registry and an empty backlog |
| `Engine.Maestro.ObservePresence` | index.js:56-71 | the poll loop leaves the registry as specified by the presence merge; ids stay unique; the backlog is unchanged |
| `Engine.Maestro.ObserveSpeaker` | index.js:139-154 | the search-and-rename loop leaves the registry as the speaker update specifies; ids stay unique |
| `Engine.Maestro.AppendToBacklog` | index.js:214-218 | the trim-then-push loop leaves the backlog as `Appended` specifies; it never exceeds 11 messages |
| `Engine.Maestro.DecideTarget` | index.js:254-279 | the message is appended, the request is built from the updated state, and the reply is normalised |
| `Engine.Maestro.LookupTarget` | index.js:159-172 | the search loop finds the id of the first entry matching by id or name, or nothing when no entry matches |
| `Engine.Maestro.PickFallback` | index.js:174-193 | 1 to 6 draws; retries continue only while the draw is the sender; fewer than 6 draws end on a non-sender, who is the target; 6 draws make the sender the target |
| `Engine.Maestro.Dispatch` | index.js:195-207 | the send loop emits exactly the visible send and data sends of the dispatch plan |
| `Engine.Maestro.HandleIncomingText` | index.js:136-208 | one incoming text updates the registry and backlog as specified, and the sends are the plan for the resolved target |
| `Scenarios.OracleNamesBob` | index.js:159-172 | Alice and Bob in the room, oracle answers "Bob": B is the target |
| `Scenarios.FailedOracleFallsBack` | index.js:174-193 | failed oracle with Alice and Bob: B if one of the first five draws picks B, else A |
| `Scenarios.AloneInTheRoom` | index.js:156-207 | alone in the room, A is its own target and receives only the visible send |
| `Scenarios.RoomOfThree` | index.js:195-207 | A, B, C with sender A and target B: a visible send to B, then data sends to A and C |
| `Scenarios.TwelveMessages` | index.js:214-218 | twelve appends to an empty backlog keep the last eleven |

## Left out

- Presence fetch (`getParticipants`, index.js:81-116): the HTTP request, URL building and JSON parsing are network I/O. The merge takes the fetched id list as a parameter. A failed or non-array response is the empty list, which merges nothing. Non-string array elements are not modelled.
- Oracle call (index.js:264-270): the OpenAI request, model name, token limit and temperature are a foreign API. Its outcome is the `OracleReply` parameter. A completion with no `choices` entry, which throws in the source, is not modelled.
- `randUpTo` (index.js:285-287): floating-point randomness. Each draw is a caller-supplied registry index. Six draws are always supplied, although only as many as the loop makes are read.
- Transport (`wcc` `connect`, `sendText`, `sendData`, index.js:202-206, 290-298): sends are returned as records, not delivered.
- Timers and concurrency (index.js:75, 300-302): the 15-second polling timer, the idle main loop, and interleaving at the oracle `await`. Each handler runs atomically. A second message that arrives while the oracle call is pending is not modelled.
- File reading and logging (index.js:122, 50-52): `ReadEnvFile` takes the file text as a parameter. Log output is dropped.
- Keys such as `__proto__`, which a JavaScript object treats specially: the configuration is a plain map.
- `Strings.Trim` and `Strings.TrimSpec` work on Unicode scalar values, not on UTF-16 code units.
