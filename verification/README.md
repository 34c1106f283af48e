# TA ranking bot: change detection, in Dafny

This project models the decision logic of a bot that watches the
time-attack rankings of Minecraft "athletics" (parkour courses) and tweets
when a board's top 10 gains a new record. There are two stages.

- **Board lister** (`get_athletics` handler). It reads the catalog of
  athletics, flattens it into a list of board names, and sends one
  `{id, name}` payload per name. Every payload of one pass carries the same
  id, the pass's millisecond timestamp.
- **Ranking handler** (`get_ranking` handler). It runs once per payload:
  1. It reads the board's latest item from the ranking table. That is the
     item with the greatest `id` under the board's `name`.
  2. It returns when there is no such item, or when that item already has
     the delivered id.
  3. It fetches the ranking and keeps rows with rank at most 10. It returns
     when none are left.
  4. It saves those rows as a new item `(name, id)`.
  5. It compares them with the latest item's rows using the key
     `` `${epoch}-${name}` ``.
  6. It tweets one bullet per row whose key is new.

The model uses immutable values and pure functions:

- The table is a map from board name to a map from id to the stored ranking.
- The handler is a function from (table, delivery, API reply) to
  (new table, whether the API was called, whether an item was written,
  tweet text, returned or threw).
- The lister is a function from (catalog reply, clock reading, which invokes
  succeed) to (payloads attempted, payloads delivered, failure logged).

Modules:

- `Reconciler`: the ranking handler.
- `RankingTable`: the table's latest-read and put.
- `Ranking`: rows, the top-10 filter, the key, the diff and the tweet text.
- `Clock`: `msToTime`.
- `BoardLister`: the lister.
- Support modules:
  - `Decimal`: JavaScript's rendering of integers of magnitude below 10^21.
  - `Text`: `join` and `slice`, and `split` as the inverse of `join`.
  - `Seqs`: `filter`.
  - `Lexicographic`: DynamoDB's string sort-key order.
  - `Results`: `Option`.

Behaviour of the code worth knowing, which the model keeps as written:

- A board with no stored item returns at the freshness check, so this
  handler never writes a board's first item; that item must be created
  elsewhere (`Reconciler.UnknownBoardStaysUnknown`).
- Saves add an item per (name, id) and keep older ones (`RankingTable.Put`);
  nothing overwrites a single snapshot per board.
- The comparison key is the display name plus the epoch. Rows are not
  matched by any player identity beyond that.
- The save happens before the comparison. A stored ranking whose text is
  empty makes the comparison throw after the new item has been written
  (`Reconciler.Handle`).
- `msToTime` keeps only the last two hour digits, so the reading wraps every
  100 hours (`Clock.MsToTimeRoundTrip`).
- The freshness check compares the delivered id with the latest id only. A
  delivery whose id sorts before the latest one is processed, and is
  processed again if it is delivered again
  (`Reconciler.StaleRedeliveryRefetches`).
- Each invoke of the lister succeeds or fails on its own, even for two
  payloads that are equal because a name is listed twice
  (`BoardLister.RepeatedNameFailsOnItsOwn`).

## Model

| member | source | states |
|---|---|---|
| `Reconciler.Handle` | src/lambda/handlers/get_ranking/index.ts:26-57 | A board with no item, or whose latest item already has the delivered id, gets no call, no write and no tweet. Any other delivery calls the API. An item is written exactly when the top 10 is non-empty, as the put of those rows under (name, delivered id); otherwise the table is unchanged. The run throws exactly on an unusable reply, or after the write when the latest stored text was empty. A tweet is posted exactly when the write happened, the old rows were readable, and some fetched row's epoch and name are absent from them; its text is the one the comparison of the latest item's rows with the fetched top 10 builds for this board. Other boards, and the board's other ids, are untouched. |
| `Reconciler.FetchAndCompare` | src/lambda/handlers/get_ranking/index.ts:38-56 | Past the check, the API is always called. An item is written exactly when the top 10 is non-empty, as the put of those rows under (name, id); without a write the table is unchanged. The run throws exactly when the reply is unusable, or when the rows were saved and the previous text was empty. A tweet is posted exactly when the rows were saved, the previous rows were readable, and some fetched row's epoch and name are absent from them; its text is the comparison's message for the previous rows and the fetched top 10. |
| `Reconciler.CheckRankingChange` | src/lambda/handlers/get_ranking/index.ts:155-189 | A tweet is produced exactly when some new row's epoch and name appear in no old row. Its text is the message for a target list that is a subsequence of the new rows and holds each unseen row as often as the new rows do, and no seen row. |
| `Reconciler.UnknownBoardStaysUnknown` | src/lambda/handlers/get_ranking/index.ts:33-36 | A board with no items still has none after the handler. |
| `Reconciler.RedeliveryIsNoOp` | src/lambda/handlers/get_ranking/index.ts:30-48 | Take a delivered id that sorts at or after all of the board's ids, and an API answer with a non-empty top 10. Delivering the same payload a second time makes no call, no write and no tweet, whatever the API answers then. |
| `Reconciler.StaleRedeliveryRefetches` | src/lambda/handlers/get_ranking/index.ts:30-48 | An id that sorts before the latest id is saved. Delivering it again calls the API again: the check is only against the latest id. |
| `RankingTable.Latest` | src/lambda/handlers/get_ranking/index.ts:64-94 | The result is absent exactly when the board has no item. Otherwise it is the board's item with the greatest id, with its stored ranking. |
| `RankingTable.Put` | src/lambda/handlers/get_ranking/index.ts:118-140 | The item (name, id) holds the rows. The board's ids become the old ids plus this one. The other items of the board and all other boards are unchanged. |
| `RankingTable.LatestAfterPut` | lib/ta-ranking-bot-stack.ts:37-46 | With `id` as the sort key, the latest item after a put is the new one if its id sorts at or after all stored ids. If it sorts before the previous latest id, the previous latest item stays. |
| `Lexicographic.Greatest` | src/lambda/handlers/get_ranking/index.ts:67-80 | The descending query with limit 1 returns a stored id that every stored id sorts at or before. |
| `Ranking.FetchTopTen` | src/lambda/handlers/get_ranking/index.ts:101-111 | A null response gives the empty list, and an unusable one throws. Otherwise the result holds exactly the rows with rank at most 10, each as often as in the response, in response order. |
| `Seqs.Filter` | src/lambda/handlers/get_ranking/index.ts:164-166 | The result holds the elements satisfying the predicate, each as often as in the input, in input order. |
| `Ranking.EpochNameInjective` | src/lambda/handlers/get_ranking/index.ts:191-192 | Two rows have the same `epoch-name` key exactly when they have the same epoch and the same name, for all integer epochs and all names, including names that contain '-'. |
| `Decimal.IntToStringInjective` | src/lambda/handlers/get_ranking/index.ts:192 | Distinct integer epochs render as distinct strings, because reading a rendered integer gives it back. |
| `Ranking.NewEntries` | src/lambda/handlers/get_ranking/index.ts:160-166 | The targets keep the new list's order. Each new row occurs as often as in the new list if its key is absent from the old keys, and not at all otherwise. |
| `Ranking.NewEntriesExactly` | src/lambda/handlers/get_ranking/index.ts:160-166 | A row is a target exactly when it is in the new list and no old row has its epoch and name. |
| `Ranking.NewEntriesCharacterized` | src/lambda/handlers/get_ranking/index.ts:160-172 | A row is among the targets exactly when it is in the new list and its epoch and name were not seen before. The targets are non-empty exactly when some such row exists. |
| `Ranking.NewEntriesMultiplicity` | src/lambda/handlers/get_ranking/index.ts:160-166 | Each row occurs among the targets as often as in the new list when no old row has its epoch and name, and not at all otherwise. |
| `Ranking.DeparturesNotReported` | src/lambda/handlers/get_ranking/index.ts:163-166 | A row that left the top 10 is never a target. |
| `Ranking.NewEntriesExample` | src/lambda/handlers/get_ranking/index.ts:160-166 | Old rows A@100 and B@101 and new rows A@100 and C@102 give exactly the target C. The departure of B is not reported. |
| `Ranking.MessageLines` | src/lambda/handlers/get_ranking/index.ts:174-188 | The lines are: the header, a blank line, the board sentence, one bullet per target in order, a blank line, and the link with the encoded board name. That makes 5 + (number of targets) lines. |
| `Ranking.MessageSplitsIntoLines` | src/lambda/handlers/get_ranking/index.ts:174-188 | Suppose the board name, the target names and the encoded name contain no line break. Then splitting the tweet at line breaks gives back exactly its 5 + (number of targets) lines. |
| `Text.SplitJoin` | src/lambda/handlers/get_ranking/index.ts:187 | Splitting a join of lines that contain no separator gives back the lines. |
| `Clock.MsToTime` | src/lambda/handlers/get_ranking/index.ts:194-206 | For every duration, the text is 12 characters with ':' at positions 2 and 5 and '.' at position 8. |
| `Clock.MsToTimeCharacters` | src/lambda/handlers/get_ranking/index.ts:199-203 | For every duration, including negative ones, the text holds only digits, '-', ':' and '.'. |
| `Clock.MsToTimeDecomposes` | src/lambda/handlers/get_ranking/index.ts:194-206 | For a non-negative duration, the text is the zero-padded hours mod 100, minutes, seconds and milliseconds. |
| `Clock.MsToTimeRoundTrip` | src/lambda/handlers/get_ranking/index.ts:194-206 | For a non-negative duration, the text has the shape `HH:MM:SS.mmm`, the minute and second fields are below 60, and it reads back as the duration modulo 100 hours. |
| `Clock.MsToTimeExact` | src/lambda/handlers/get_ranking/index.ts:196-203 | Below 100 hours, the text reads back as exactly the duration. |
| `Clock.MsToTimeExampleZero` | src/lambda/handlers/get_ranking/index.ts:194-206 | 0 ms renders as `00:00:00.000`. |
| `Clock.MsToTimeExampleMinute` | src/lambda/handlers/get_ranking/index.ts:194-206 | 61234 ms renders as `00:01:01.234`. |
| `Clock.MsToTimeExampleHour` | src/lambda/handlers/get_ranking/index.ts:194-206 | 3661000 ms renders as `01:01:01.000`. |
| `BoardLister.FlattenMeaning` | src/lambda/handlers/get_athletics/index.ts:23-31 | The flattened list is every section's names, entry by entry and section by section. The reduce throws exactly when some entry has no sections. |
| `BoardLister.ReduceNamesMeaning` | src/lambda/handlers/get_athletics/index.ts:27 | The inner reduce with no initial value throws exactly on an empty section list. Otherwise it concatenates the sections' names in order. |
| `BoardLister.FlattenLength` | src/lambda/handlers/get_athletics/index.ts:23-31 | The flattened list is as long as the total count of section names: nothing is deduplicated or dropped. |
| `BoardLister.Payloads` | src/lambda/handlers/get_athletics/index.ts:46-49 | There is one payload per name, in order, and all carry the same id. |
| `BoardLister.RunPass` | src/lambda/handlers/get_athletics/index.ts:17-72 | A failed pass attempts and delivers nothing. The delivered payloads are the attempted ones read at increasing positions, and those positions are exactly the attempts whose own invoke succeeds. |
| `BoardLister.DeliveredAtUnique` | src/lambda/handlers/get_athletics/index.ts:46-72 | The delivered list is determined by the attempts and their outcomes: two lists read at the accepted positions of the same attempts are equal. |
| `BoardLister.RepeatedNameFailsOnItsOwn` | src/lambda/handlers/get_athletics/index.ts:46-72 | A name listed twice gives two equal payloads. When the first invoke succeeds and the second fails, exactly one copy is delivered. |
| `BoardLister.PassAttemptsEveryName` | src/lambda/handlers/get_athletics/index.ts:42-50 | Over a catalog whose entries all have sections, the pass does not fail. It attempts one payload per catalog name, all with the id rendered from the clock, whichever invokes fail. |
| `BoardLister.EmptyEntryStopsPass` | src/lambda/handlers/get_athletics/index.ts:19-38 | An entry with no sections makes the pass catch the error and attempt no payload. |
| `BoardLister.LaterPassSortsLater` | src/lambda/handlers/get_athletics/index.ts:43 | Take two clock readings with the same number of digits. The later reading's id sorts at or after the earlier one's, so the table's latest item is the latest pass's. |

## Left out

- Clients and transport are not modelled. This covers the DynamoDB client and its Query and PutItem calls, `node-fetch`, the Lambda invoke client and the Twitter client. The API reply, the catalog reply and the invoke outcomes are parameters. The table is an abstract map. Table read and write failures are not modelled.
- Tweet delivery, and the swallowing of its errors (get_ranking/index.ts:220-224), are not modelled. The model returns the tweet text.
- JSON is not modelled. Stored rankings are row sequences. An empty `ranking` text is modelled as `EmptyText`, whose `JSON.parse('{}')` result makes `.map` throw. Items lacking attributes and rows lacking fields are not modelled.
- `encodeURIComponent` is an opaque function parameter. `new Date().getTime()` is the input `now`.
- Concurrency is not modelled: the `Promise.all` fan-out, asynchronous `Event` invocation and reserved concurrency. A pass is a sequence of independent invoke attempts.
- Numbers are integers. Rank, time and epoch are JavaScript doubles. Fractional values and floating-point rounding in `msToTime` are not modelled.
- The catalog is taken as a sequence of entries already in `Object.entries` order. JavaScript's placement of integer-like keys first is not modelled.
- Strings are sequences of Unicode scalar values. JavaScript's UTF-16 code units and lone surrogates are not modelled. The sort-key order is code-point order, which equals DynamoDB's UTF-8 byte order.
- Logging is not modelled.
- CDK provisioning (lib/ta-ranking-bot-stack.ts, bin/ta-ranking-bot.ts) is not modelled. It is cited only for the `(name, id)` key schema.
- The local harness src/lambda/handlers/get_ranking/debug.ts and the declarations in src/lambda/handlers/get_ranking/types/index.d.ts are not modelled.
- Decimal.IntToString: renders every integer in plain decimal digits. JavaScript writes numbers of magnitude 10^21 or more in exponent form (`1e+21`) and cannot hold every integer above 2^53 exactly. The model therefore assumes epochs, ranks and hour counts below those bounds. It does not model the `${epoch}`, `${t.rank}` and `'00' + hour` renderings beyond them.
- Clock.MsToTime: for negative durations only the shape and character set are stated. The exact digits JavaScript produces with a truncating `%` are modelled but not characterised.
