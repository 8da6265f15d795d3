# Auto-tweet bot: run policy

A model of the state-keeping part of a small Node.js bot that, on a timer or
on request, fetches a trending news headline for the next topic in a fixed
rotation, skips it if it was handled recently, asks a text-generation
service to turn it into a post, remembers that post for the status page and
publishes it.

Three modules, one per piece of that policy:

- `Rotation` (`rotation.dfy`): the topic catalog and its cursor, as the
  class `TopicRotator`, with the schedule of topics that successive requests
  receive (`Schedule`) and lemmas on full cycles.
- `Recency` (`recency.dfy`): the bounded, insertion-ordered set of handled
  headlines, as the class `RecencySet` over a duplicate-free `seq<string>`
  (oldest first) with a capacity, specified by the function `Record`
  (add if absent, then evict the oldest if over capacity).
- `Bot` (`bot.dfy`): one run of the pipeline as the function `Step` over a
  `BotState` value, the class `Orchestrator` that holds the process-wide
  state (rotator, recency set, last post and its headline) and whose `Run`
  method is proved to do exactly what `Step` says, and lemmas over one run
  and over sequences of runs (`Replay`).

The three outside services are not modelled: a run takes what they returned
as inputs — the article found (`Option<Article>`, `None` for "no article" and
for any error), the generated text (`Option<string>`) and whether publishing
succeeded (`bool`). A run returns a `Report`: the topic it asked about and an
`Outcome` (`NoNews`, `Duplicate`, `GenFailed`, `Posted` or `PublishFailed`,
carrying the headline and the post as far as the run got). A generated text
that is the empty string counts as a failure, as the source's `!tweet` test
does. The headline string always contains `" - "`, so the source's `!news`
test fails only when no article came back.

The catalog is `["sports", "technology", "entertainment"]` and the capacity
of the recency set is 50, as in the source; the lemmas hold for any
non-empty catalog and any capacity of at least 1.

## Model

| member | source | states |
|---|---|---|
| Rotation.Advance | server.js:43 | the next cursor is in range: one more than the old one, or 0 after the last topic |
| Rotation.CursorAfter | server.js:43 | k successive steps keep the cursor inside the catalog |
| Rotation.TopicRotator.constructor | server.js:21-22 | the rotator starts at the first topic of a non-empty catalog |
| Rotation.TopicRotator.Next | server.js:42-43 | returns the topic under the old cursor, and the cursor moves one step circularly and stays in range |
| Rotation.Schedule | server.js:42-43 | k successive requests hand out exactly k topics |
| Rotation.ScheduleAt | server.js:42-43 | the i-th of successive requests gets the topic under the cursor after i steps |
| Rotation.CursorWithinCycle | server.js:43 | within one cycle, k steps move the cursor k places, wrapping once past the last topic |
| Rotation.CursorCompose | server.js:43 | a steps followed by b steps are a + b steps |
| Rotation.CursorPeriodic | server.js:43 | after any whole number of full cycles the cursor is back where it started, so rotation can go on without bound |
| Rotation.FullCycle | server.js:42-43 | one full cycle from any cursor hands out every topic once, in catalog order from the cursor, and returns the cursor to its start |
| Rotation.CycleFromStart | server.js:21-22 | from a fresh cursor, N requests return the catalog in order and request N+1 returns the first topic again |
| Recency.RecencySet.constructor | server.js:18 | the set starts empty, with the given capacity of at least 1 |
| Recency.RecencySet.Contains | server.js:27-29 | true exactly when some recorded headline is equal to the given string; reads the set and changes nothing |
| Recency.RecencySet.Store | server.js:31-38 | the new contents are those `Record` gives; the set stays duplicate-free and within capacity, and the headline is present afterwards |
| Recency.Record | server.js:31-38 | recording within capacity keeps the set within capacity and leaves the headline present (capacity at least 1); nothing but the recorded headline is ever added |
| Recency.RecordKeepsInvariant | server.js:31-38 | recording keeps the set duplicate-free and within capacity, and the recorded headline is present afterwards |
| Recency.RecordPresent | server.js:32-33 | recording a headline already present leaves contents and order unchanged, with no eviction |
| Recency.RecordBelowCapacity | server.js:32-33 | below capacity a new headline is appended last and nothing is evicted |
| Recency.RecordEvictsOldest | server.js:32-36 | at capacity a new headline evicts exactly the oldest element; the others stay in order and the new headline is last |
| Recency.RecordAllKeepsLatest | server.js:31-38 | recording a stream of distinct headlines leaves exactly the latest `cap` of them, oldest first |
| Recency.OverflowByOne | server.js:31-38 | recording cap + 1 distinct headlines into an empty set leaves cap of them: the first is gone and all the others remain |
| Recency.RecordAll | server.js:31-38 | recording headlines one after another keeps the set within capacity, the last one recorded is present, and nothing outside the old set and the recorded headlines appears |
| Bot.FormatHeadline | server.js:49 | the headline is the title, then " - ", then the description |
| Bot.Usable | server.js:92 | a generated post fails the check exactly when there is none or it is the empty string |
| Bot.Step | server.js:77-106 | a run asks about the topic under the cursor and always advances it; no article gives NoNews and a recorded headline gives Duplicate, both leaving the set and the last post unchanged; otherwise the headline is recorded; no or empty text gives GenFailed with the last post unchanged; otherwise the last post becomes (text, headline) and the outcome is Posted or PublishFailed according to publishing |
| Bot.StepKeepsInv | server.js:77-106 | every run keeps the cursor in range and the recency set duplicate-free and within capacity |
| Bot.NewHeadlineIsRecorded | server.js:89-95 | a headline that passed the duplicate test is in the recency set after the run, however generation and publishing went |
| Bot.PublishFailureKeepsState | server.js:96-105 | a failed publish leaves the same state as a successful one: nothing is rolled back, and the last post is still updated |
| Bot.RepeatIsSkipped | server.js:84-89 | a new headline fetched again on the next run is reported as Duplicate, and that run changes only the cursor |
| Bot.Replay | server.js:77-106 | a sequence of runs yields one report per run and keeps the cursor in range |
| Bot.ReplayFollowsSchedule | server.js:41-53 | whatever the services return, k runs ask about the topics of the rotation schedule in order and move the cursor k steps: runs that find no news or a duplicate still use up their topic |
| Bot.ReplayKeepsInv | server.js:77-106 | any number of runs keeps the cursor in range and the recency set duplicate-free and within capacity |
| Bot.TechnologyRunExample | server.js:77-106 | on the "technology" turn, the article ("AI breakthrough", "new model released") and a generated post give the headline "AI breakthrough - new model released", that post is the one published, and it becomes the last post |
| Bot.Orchestrator.constructor | server.js:18-25 | the bot starts at the first topic of the three-topic catalog, with an empty set of capacity 50 and empty last-post fields |
| Bot.Orchestrator.Valid | server.js:18-25 | the object invariant implies the state invariant over its `BotState` view, so the lemmas about runs apply to the object |
| Bot.Orchestrator.Run | server.js:77-106 | one run changes the rotator, the recency set and the last-post fields exactly as `Step` says and returns its report, keeping every invariant |

## Left out

- The HTTP calls to the news and text-generation services and the social-platform client (server.js:10-15, 46, 61-67, 101) are not modelled: a run takes their results as inputs, and every error they raise is the same as an empty result.
- The prompt text sent to the text-generator (server.js:59) is not modelled; nothing in the run depends on it.
- The status page and the manual-trigger route (server.js:112-125) and the listening server (server.js:128-130) are not modelled; the trigger route performs one `Run`.
- The 100-minute timer (server.js:109) is not modelled, and runs are taken to be sequential: two runs overlapping at their waits on the services (a timer run and a manual run) are not modelled.
- Configuration loading, console logging and the timestamp in the log (server.js:1, 7, 98) are not modelled.
- Article fields that are missing (which JavaScript would render as "undefined" or "null" inside the headline) and generated values that are not strings are not modelled: titles, descriptions and generated texts are strings.
