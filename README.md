# dec: fake view-event publisher and event statistics, in Dafny

This project models the core of `dec`, a small system that makes synthetic
video-view events and publishes them on a broker in batches. It also has
pandas aggregations that summarise a list of such events.

- **Events** (`events.dfy`): `create_fake_event` as a pure function. Its
  random draws and the clock reading are inputs (`Draws`, `now`).
  - `clip` and `publisher_id` are `str(randint(0, 10**L)).zfill(L)`.
  - `country` is one of the nine country codes.
  - `viewable_time` is kept as an integer number of tenths.
- **OrderedDict** (`ordered_dict.dfy`): the Python `dict` behind `Pipe.diz`,
  as a value. It holds the keys in first-insertion order plus the
  key-to-value map. Writing a key that is already present overwrites its
  value and keeps its position.
- **Publisher** (`publisher.dfy`): the batch builder.
  - Class `Pipe` with fields `order` and `diz`, and its `set`.
  - `recursive_pipeline` as a loop over the chained pipe, and
    `create_pipeline` with its assert.
  - The ten-cycle loop of `main`: build a fresh pipe of 100 events keyed by
    event id, list `diz.values()`, publish the list on `events`.
  - The event creator is a function `nat -> Event`, where `creator(i)` is
    the event returned by the i-th call.
  - `json.dumps` is the abstract parameter `serialize`.
  - The published messages are the method's result.
- **Grouping** (`grouping.dfy`): the group-by-and-sum that pandas does, over
  `(key, weight)` rows. Also the descending sort by weight and Python's
  `[:n]` slice.
- **Statistics** (`statistics.dfy`):
  - `day_night` from the local hour and minute.
  - `top_n_publisher_by_count`, `unique_clips_count_per_publisher` and
    `clips_count_per_country_day_night` as functions over a sequence of
    events.
  - `viewable_time_sum_per_publisher` over integer tenths.
  - `datetime.fromtimestamp` is the parameter `localTime`.

Three points where the code differs from the behaviour its design intends:
- `randint(0, 10**L)` includes `10**L`. The intent is ids of exactly L
  digits. `Events.CreateFakeEvent` follows the code.
- `create_pipeline` lets length 0 through its assert, into a recursion whose
  base case is 1. The intent is an empty batch for 0.
  - `Publisher.RecursionOutcome` models the recursion as written.
  - `Publisher.CreatePipeline` models the intended behaviour: 0 gives an
    empty pipe.
  - Both are listed under "## Findings".
- `unique_clips_count_per_publisher` returns the set of clip ids of each
  publisher, not the size of that set, despite its name. The model follows
  the code.

## Model

| member | source | states |
|---|---|---|
| Events.CreateFakeEvent | dec/publisher.py:12-35 | the country is one of the nine codes; viewable time is k tenths with k < 300; the event id and timestamp are the uuid text and clock reading; clip and publisher id are all digits, read back as their draws, and are as long as the longer of the draw's digit count and the width |
| Events.CountryOrderIsCountries | dec/publisher.py:9 | the enumeration the country draw indexes lists exactly the nine codes of `countries` |
| Events.DecimalString | dec/publisher.py:19 | `str(v)` is all digits, reads back as v, has NumDigits(v) characters and no leading zero when v > 0 |
| Events.ZFill | dec/publisher.py:19 | `s.zfill(w)` has length max(len(s), w), ends with s, and has '0' in every position before it |
| Events.FormatId | dec/publisher.py:19 | `str(v).zfill(w)` is all digits, reads back as v, and has length max(NumDigits(v), w) |
| Events.NumDigitsFits | dec/publisher.py:19 | for a width L >= 1, v has at most L digits exactly when v < 10^L |
| Events.FormatIdWidth | dec/publisher.py:19 | for a draw v in [0, 10^L], the padded id has length L, except that v = 10^L gives L + 1 |
| Events.ClipWidthAtTopDraw | dec/publisher.py:19 | the top draw of the inclusive `randint` gives a clip id one character wider than `clip_length` |
| Events.FixedWidthIds | dec/publisher.py:19-22 | with draws below 10^L, clip and publisher ids have exactly their configured widths |
| OrderedDict.PutFacts | dec/publisher.py:85 | `d[key] = value` keeps the dict well formed, sets key to value, leaves every other key's presence and value alone, and adds a position only for a new key |
| OrderedDict.PutAllValid | dec/publisher.py:85 | any sequence of writes keeps the dict well formed |
| OrderedDict.PutAllKeys | dec/publisher.py:85 | after a sequence of writes, the keys are the old keys together with the written keys |
| OrderedDict.PutAllUntouched | dec/publisher.py:85 | a key never written keeps its presence and its value |
| OrderedDict.PutAllLastWrite | dec/publisher.py:85 | a write that no later write to the same key follows decides the key's final value |
| OrderedDict.PutAllOrder | dec/publisher.py:85-97 | starting empty, the key order holds each written key once, and keys whose first write is earlier come earlier |
| OrderedDict.PutAllSize | dec/publisher.py:85 | starting empty, n writes leave at most n entries and exactly n iff the written keys are pairwise distinct |
| OrderedDict.ValuesOfWrites | dec/publisher.py:97 | `list(diz.values())` has at most one value per write, one per write iff the keys are distinct, and holds each key's last written value |
| OrderedDict.Values | dec/publisher.py:97 | `list(d.values())` of a well-formed dict has one value per entry |
| OrderedDict.ValuesListed | dec/publisher.py:97 | the i-th value listed is the value of the i-th key in insertion order, so every value held is listed and nothing else |
| Publisher.Pipe.constructor | dec/publisher.py:80-81 | a fresh Pipe holds the empty dict |
| Publisher.Pipe.Set | dec/publisher.py:84-86 | `set(key, value)` returns the same pipe, assigns `diz[key] := value`, leaves everything else unchanged and appends the key to the order only if it is new |
| Publisher.Pipe.Values | dec/publisher.py:97 | `list(diz.values())` has one value per entry of `diz`, the i-th being the value of the i-th key in insertion order |
| Publisher.WritesStep | dec/publisher.py:55-58 | one more creator call adds exactly one write, at the end, keyed by the new event's field |
| Publisher.RecursivePipeline | dec/publisher.py:46-61 | for pipeline_length n >= 1, the pipe returned is the pipe passed in, and its dict is the old dict with the n writes of creator calls start..start+n-1 applied in call order |
| Publisher.BatchKeys | dec/publisher.py:55-61 | the keys of a batch built from an empty pipe are exactly the n generated keys |
| Publisher.BatchLastEvent | dec/publisher.py:57-58 | each key maps to the serialization of the last generated event with that key |
| Publisher.BatchSize | dec/publisher.py:55-61 | a batch of n calls has at most n entries, and exactly n iff the generated keys are pairwise distinct |
| Publisher.CreatePipeline | dec/publisher.py:64-76 | fails its assert exactly when pipeline_length < 0; otherwise it returns a fresh, well-formed pipe holding the batch of pipeline_length creator calls, with 0 giving the empty pipe (corrected behaviour) |
| Publisher.RecursionOutcome | dec/publisher.py:46-61 | as written, with at most `depth` nested calls: returns iff 1 <= pipeline_length <= depth, and then after pipeline_length creator calls |
| Publisher.ZeroLengthNeverReturns | dec/publisher.py:56-73 | pipeline_length 0, which the assert lets through, exhausts any recursion depth without returning |
| Publisher.CyclePayloadFacts | dec/publisher.py:96-97 | cycle c makes BATCH_SIZE writes, the i-th keyed by event id and carrying the serialization of creator call c*100+i; its payload has at most 100 values, exactly 100 iff the ids are distinct, and holds every event whose id is not generated again later in the cycle |
| Publisher.Cycle | dec/publisher.py:95-98 | one cycle builds a fresh pipe of 100 events keyed by event id and yields the message of its value list on `events` |
| Publisher.Run | dec/publisher.py:92-100 | exactly 10 messages are published, all on channel `events`; message c is the value list of cycle c's fresh batch, with at most 100 entries |
| Grouping.SumBy | dec/statistics.py:56-58 | grouping and summing gives distinct keys, a row for exactly the keys that occur, each key's row carrying its total weight, and the same grand total |
| Grouping.SumByRows | dec/statistics.py:56-58 | each row's weight is the total weight of its key in the input |
| Grouping.SortByWeightDesc | dec/statistics.py:23 | `sort_values(ascending=False)` gives a permutation of the rows (same length and multiset) in non-increasing weight |
| Grouping.PermutationKeys | dec/statistics.py:23 | reordering rows with distinct keys keeps the same keys, still distinct |
| Grouping.SliceTo | dec/statistics.py:24 | `iloc[:n]` is a prefix of the rows, of length min(n, len) for n >= 0 and max(0, len + n) for n < 0 |
| Statistics.DayNight | dec/statistics.py:45-49 | for a minute from a clock, the result is day iff 7 <= hour < 19, which is the lexicographic test (7, 0) <= (hour, minute) < (19, 0) |
| Statistics.DayNightBoundaries | dec/statistics.py:48 | 07:00 and 18:59 are day; 19:00 and 06:59 are night |
| Statistics.GroupOf | dec/statistics.py:53-54 | an event's group is its country paired with day exactly when its local hour is in [7, 19) |
| Statistics.OnesFacts | dec/statistics.py:20 | counting rows of ones gives each key its number of occurrences, and the total is the number of items |
| Statistics.CountedRows | dec/statistics.py:18-21 | `groupby(...).count()` gives distinct keys, one row per key that occurs, each carrying its number of occurrences, and counts summing to the number of items |
| Statistics.Ranking | dec/statistics.py:18-23 | one row per publisher that occurs, each carrying its number of events, in non-increasing order of count |
| Statistics.TopNPublisherByCount | dec/statistics.py:17-27 | `iloc[:n]` of the ranking: min(n, #publishers) rows for n >= 0, or all but the last -n rows for n < 0; rows keep true counts in non-increasing order with distinct publishers; no publisher left out has more events than any publisher kept |
| Statistics.UniqueClipsCountPerPublisher | dec/statistics.py:30-42 | maps each publisher that occurs, and nothing else, to exactly the set of clip ids of its events |
| Statistics.ClipsCountPerCountryDayNight | dec/statistics.py:52-62 | one row per (country, day/night) pair that occurs, each carrying its number of events; the counts sum to the number of events |
| Statistics.ViewRowsFacts | dec/statistics.py:8-10 | summing the (publisher, tenths) rows gives each publisher its own total and the grand total of all events |
| Statistics.ViewableTimeSumPerPublisher | dec/statistics.py:7-14 | one row per publisher that occurs, each carrying the total viewable tenths of its events; the rows add up to the total of all events |

## Left out

- The broker: the Redis connection, `redis_connection.pipeline()`, `rc.publish` and `time.sleep` are network I/O and timing. A cycle's publish is a `Message` appended to `Run`'s result, and `CreatePipeline` starts from a fresh `Pipe`.
- Randomness and the clock: the `random` calls, `uuid.uuid4()` and `datetime.now()` become inputs. Nothing is said about their distribution or about uuid uniqueness.
- `json.dumps` is the abstract parameter `serialize`. JSON encoding is not modelled, and no claim needs it to be injective.
- `Pipe.get`: it calls itself forever and nothing uses it.
- `random.sample` on a set: Python 3.11 and later reject a set argument. The model takes the drawn position into a fixed enumeration of the nine codes.
- `zfill` of a signed string: the drawn numbers are never negative, so `Events.ZFill` does not handle signs.
- Floating point: `viewable_time` is kept as integer tenths, so its sum per publisher is exact. pandas adds floats.
- `datetime.fromtimestamp`: the local time-zone conversion is the parameter `localTime`.
- `Publisher.RecursivePipeline`: requires pipeline_length >= 1, because the source's recursion terminates only then. It runs the tail recursion as a loop, so it does not capture the interpreter's recursion limit for large lengths. `Publisher.RecursionOutcome` models that limit as a depth bound.
- `Statistics.TopNPublisherByCount`: does not state which of several publishers with equal counts are kept, because `sort_values` does not fix the order of ties. The model's sort is stable.
- `Statistics.ClipsCountPerCountryDayNight`: does not state the order of its rows, because pandas sorts group keys and the model lists them by first appearance.
- `Statistics.ViewableTimeSumPerPublisher`: does not state the order of its rows, for the same reason.
- `Statistics.UniqueClipsCountPerPublisher`: returns a map from publisher to clip set rather than rows ordered by publisher. The row order, `reset_index` and `rename` column names are pandas plumbing.
- `Statistics.DayNight`: for a negative minute, which a clock never gives, the contract does not state the result.
- Statistics: for an empty event list, pandas builds a frame without columns, so every aggregation raises KeyError at its column selection (dec/statistics.py:8, 18, 35, 53). The model returns an empty table or map instead.
- Default arguments: `clip_length=4`, `publisher_length=2`, `pipeline_length=100`, `event_id_key='event_id'` and `n=10` are not modelled; every parameter is explicit. `Publisher.Field` limits `event_id_key` to the four string fields. Any other field, or a KeyError for a missing one, is not modelled. Every call site passes `'event_id'`.
- `Publisher.Run`: does not model that each cycle's message is sent five seconds after the last. Its `n` is the cycle index and the creator calls of cycle c are numbered from c * 100.

## Findings

| source | as written | input that shows it | evidently intended | confidence | as-written member | corrected member |
|---|---|---|---|---|---|---|
| dec/publisher.py:56,73 | `create_pipeline` asserts `pipeline_length >= 0`, but `recursive_pipeline` stops only at `pipeline_length == 1`, so 0 recurses through -1, -2, … until the recursion limit | `create_pipeline(rc, create_fake_event, pipeline_length=0)` | length 0 gives an empty pipeline, or the assert demands `>= 1` | not executed | Publisher.RecursionOutcome | Publisher.CreatePipeline |
| dec/publisher.py:19,22 | `random.randint(0, 10 ** L)` includes `10 ** L`, whose decimal form has L + 1 digits, so `zfill(L)` leaves an id one character too wide | clip_length 4 and draw 10000 give clip `"10000"` | ids of exactly L digits, drawing from `randint(0, 10 ** L - 1)` | not executed | Events.ClipWidthAtTopDraw | Events.FixedWidthIds |
