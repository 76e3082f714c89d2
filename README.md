# sfn-vis core, modelled in Dafny

sfn-vis shows AWS Step Functions executions that run inside a local Docker
container. It has two halves, and this project models the logic of each.

- **Log collector** (`server/src/docker.rs`). It reads the container's
  stdout line by line. Each line is handled in these steps:
  - it is split on `": "` and every piece is trimmed;
  - the first piece is taken as the date and the second as the execution ARN;
  - the line is dropped unless the ARN starts with `arn:aws:states:`;
  - the remaining pieces are joined back with `": "` and parsed as JSON;
  - the resulting `Log` record is inserted into an insertion-ordered map
    keyed by date.
- **Browser view** (`src/App.tsx`). It receives the records as an array and
  computes:
  - the distinct execution ARNs;
  - for each ARN, its records, its status, and the dates of its first and
    last record, stored under the execution's name (the eighth
    colon-separated field of the ARN);
  - the list view, sorted by start date, latest first;
  - for a single record, the "event details" entry of its message.

Modules:

- `Wrappers`: `Option`.
- `Seqs`: distinctness, first index, de-duplication in first-occurrence
  order, removal of a key set.
- `Strings`: Rust's `str::split`, `str::trim` and `starts_with`;
  JavaScript's `split`, `includes` and string `<`; character counts.
- `Records`: the JSON value and the `Log` record.
- `Docker`: the line parser, the specification of the table after a run of
  lines, and the `LogTable` class. `LogTable` is the `LinkedHashMap` as a key
  order plus a map, with `Insert`, `HandleLine` and the `GatherLogs` loop.
- `App`: the aggregation. `Executions` and `WriteExecutions` are the
  `executions` memo's loop. `Summarize` and the lemmas around it specify
  each entry. `EventDetail` and `ListView` cover the detail lookup and
  the list sort.

Points where the code's behaviour may surprise a reader, all modelled as
written:

- `started` and `ended` are the dates of the first and last record in
  arrival order. Nothing is sorted before they are taken
  (src/App.tsx:196-197).
- The status text is `SUCCESSFUL`, not `SUCCEEDED` (src/App.tsx:199-203).
- When an ARN has fewer than eight fields, its entry is written under the
  property key `"undefined"`, because JavaScript converts the `undefined`
  key to that string (src/App.tsx:187, 211).
- An execution named `__proto__` is never listed. `out` is a plain object,
  so assigning `out["__proto__"]` replaces its prototype instead of adding
  a property (src/App.tsx:184, 211).

## Model

| member | source | states |
|---|---|---|
| Docker.ParseLine | server/src/docker.rs:35-45 | a line yields a record exactly when it has a `": "`, its trimmed second field starts with `arn:aws:states:` and its message source parses; the record's date, ARN and message are then the trimmed first field, the trimmed second field and the parsed message; every other line (no separator, other prefix, unparsable message) yields nothing |
| Docker.Pieces | server/src/docker.rs:35 | the line gives at least one piece, more than one exactly when it holds `": "`, and every piece is trimmed |
| Docker.MessageSource | server/src/docker.rs:38 | the message source is empty when the line has fewer than two `": "` |
| Docker.MessageSourceRoundTrip | server/src/docker.rs:38 | when no piece of the line has surrounding whitespace, the rejoined message source is exactly the text after the line's second `": "` |
| Docker.StoreTouchesOneKey | server/src/docker.rs:46 | an accepted record sets the entry at its date; every other entry is unchanged, the key set gains at most that date, and the size grows by at most one |
| Docker.StoreAllOverrides | server/src/docker.rs:28-46 | ingesting records into a table gives the old table overridden by what the records alone build |
| Docker.ReorderAllShape | server/src/docker.rs:28-46 | after ingestion, the key order is the old order without the ingested dates, followed by the order the records alone build |
| Docker.ReorderAllMembers | server/src/docker.rs:28-46 | the order the records alone build holds exactly the dates they store |
| Docker.ReprocessKeepsContents | server/src/docker.rs:28-46 | reading the same lines a second time leaves the contents as the first reading left them |
| Docker.ReprocessKeepsOrder | server/src/docker.rs:28-46 | reading the same lines a second time leaves the key order as the first reading left it |
| Docker.LogTable.Insert | server/src/docker.rs:46 | `insert` sets the value at the key and moves the key to the back of the order; the table stays well formed and grows by at most one |
| Docker.LogTable.HandleLine | server/src/docker.rs:35-47 | one line changes the contents and the order exactly as its parsed record (or its absence) prescribes |
| Docker.LogTable.GatherLogs | server/src/docker.rs:28-50 | the loop over the lines leaves the contents and order that the records of all lines, applied in order, prescribe |
| Strings.Split | server/src/docker.rs:35 | splitting yields at least one piece, more than one exactly when the separator occurs, no piece containing it, and the pieces joined by it give back the input |
| Strings.SplitHead | server/src/docker.rs:35-36 | the first piece is the text before the first separator; the remaining pieces are the split of the text after it |
| Strings.Trim | server/src/docker.rs:35 | the result is a slice of the input with only whitespace cut from either end, and it neither starts nor ends with whitespace |
| Strings.TrimOfTrimmed | server/src/docker.rs:35 | trimming a string without surrounding whitespace returns it unchanged |
| Strings.Find | server/src/docker.rs:35 | the leftmost occurrence of the separator, or none exactly when it does not occur |
| Strings.SplitCharCount | src/App.tsx:187 | splitting on one character yields one piece more than the character's occurrences |
| Strings.LessTotal | src/App.tsx:240 | of two different strings, one is less than the other |
| Strings.LessTransitive | src/App.tsx:240 | string `<` is transitive |
| Strings.AtLeastTransitive | src/App.tsx:240 | "not less than" is transitive |
| Seqs.Dedup | src/App.tsx:168 | the spread of a `Set` holds every element of the input and nothing else, each once |
| Seqs.DedupFirstOccurrenceOrder | src/App.tsx:168 | the spread of a `Set` lists elements in order of their first occurrence in the input |
| Seqs.WithoutMembers | server/src/docker.rs:46 | removing keys from the order keeps exactly the other keys, and keeps them distinct |
| App.ExecutionArns | src/App.tsx:167-170 | the ARNs are exactly those occurring in the data, each once; there are none without data |
| App.ExecutionArnsInFirstOccurrenceOrder | src/App.tsx:167-170 | the ARNs are listed in order of their first record |
| App.Filter | src/App.tsx:188 | an ARN's group is non-empty exactly when the ARN occurs in the data, so `logs[0]` and the last element are defined |
| App.FilterCount | src/App.tsx:188 | a group holds each record of its ARN as often as the data does, and no record of another ARN |
| App.FilterConcat | src/App.tsx:188 | filtering a concatenation filters each part in turn, so the group keeps the input order |
| App.FilterEnds | src/App.tsx:196-197 | the first and last record of a group are the ARN's first and last record in the data |
| App.LastMatch | src/App.tsx:197 | the index of an ARN's last record: it has the ARN, and no later record has it |
| App.FilterHasType | src/App.tsx:188-194 | a group has a record of a given type exactly when the data has one for that ARN |
| App.Truthy | src/App.tsx:58 | the values that fail the `eventDetails[1]` test are exactly `null`, `false`, `0` and `""` |
| App.Lookup | src/App.tsx:190-193 | reading a property finds an entry with that key, and finds none exactly when no entry has it |
| App.LookupDistinct | src/App.tsx:190-193 | when keys are distinct, reading a property gives the value of the one entry with that key |
| App.HasTypeEntry | src/App.tsx:190-193 | `message.Type === t` holds only for an object with a `Type` entry holding the string `t`; when keys are distinct, such an entry is enough |
| App.Status.Color | src/App.tsx:205-210 | SUCCESSFUL draws emerald, FAILED red and RUNNING slate, and each class pair belongs to that status alone |
| App.SomeOfType | src/App.tsx:189-194 | `some` holds exactly when a record of the given `Type` exists |
| App.DeriveStatus | src/App.tsx:189-203 | SUCCESSFUL exactly when a succeeded record exists, even beside a failed one; FAILED exactly when a failed record exists and no succeeded one; RUNNING exactly when neither exists |
| App.StatusMonotone | src/App.tsx:189-203 | more records never lower the status from SUCCESSFUL to FAILED or RUNNING, or from FAILED to RUNNING |
| App.StatusIgnoresOrder | src/App.tsx:189-203 | the status depends only on which records the group holds, not on their order |
| App.GroupsCount | src/App.tsx:186-188 | over distinct ARNs, the concatenated groups hold each record once per occurrence if its ARN is listed, and not at all otherwise |
| App.GroupsPartitionData | src/App.tsx:168-188 | over the distinct ARNs, the groups together hold every record exactly once: nothing is lost or duplicated |
| App.Summarize | src/App.tsx:186-211 | an entry's logs are the ARN's group; `started` and `ended` are the dates of its first and last record in arrival order; its status follows the precedence over the ARN's records; its color is a function of its status alone |
| App.SingleRecordExecution | src/App.tsx:196-197 | an execution with one record starts and ends at that record's date |
| App.StartedThenSucceeded | src/App.tsx:186-211 | a started record at t1 followed by a succeeded one at t2 gives one SUCCESSFUL execution from t1 to t2 with the emerald color |
| App.Name | src/App.tsx:187 | `split(":")[7]` is defined exactly when the ARN has at least seven colons, and contains no colon |
| App.NameIsEighthField | src/App.tsx:187 | the name is the text between the seventh colon and the next colon or the end |
| App.SummarizeExecution | src/App.tsx:187-211 | the loop body computes the entry `Summarize` specifies |
| App.Key | src/App.tsx:187-211 | the property key is `"undefined"` when the ARN has fewer than seven colons; otherwise it is the name, the text between the seventh colon and the next colon or the end |
| App.WriteExecutions | src/App.tsx:184-212 | the record's keys are the ARNs' keys in order of first writing, except `__proto__`, which is never stored; under each other key is the entry of the last ARN with that key, so a later ARN overwrites an earlier one of the same name |
| App.Executions | src/App.tsx:172-216 | no table without data; otherwise the table the loop writes over the distinct ARNs, with no `__proto__` entry |
| App.Entries | src/App.tsx:238 | `Object.entries` gives one row per stored name, in property order, pairing row `i` with the `i`-th name and its execution; so it lists exactly the pairs of a stored name and its execution |
| App.EntriesPermutationOncePerName | src/App.tsx:238-241 | when the table's names are distinct, any reordering of its entries shows each name at most once |
| Seqs.DistinctPermutation | src/App.tsx:238-241 | reordering a sequence without duplicates leaves it without duplicates |
| App.ListView | src/App.tsx:238-241 | the list view holds exactly the table's (name, execution) pairs, as a permutation of the entries, latest start first, one row per stored name, and no name twice when the names are distinct |
| App.InsertByStarted | src/App.tsx:238-241 | inserting a row into rows sorted latest-first keeps them sorted and adds exactly that row |
| App.SortByStarted | src/App.tsx:238-241 | the list view is a permutation of the entries, with no row starting after an earlier one |
| App.FindDetails | src/App.tsx:54-56 | `find` returns the first entry whose key contains `EventDetails`, and returns none exactly when no key does |
| App.EventDetail | src/App.tsx:54-63 | a detail is shown exactly when the message is an object whose first `EventDetails` entry has a truthy value, and it is that value; otherwise `No Data...` is shown |

`Docker.Store` and `Docker.Reorder` (the map's `insert`, server/src/docker.rs:46), `Docker.StoreAll` and `Docker.ReorderAll` (that insert folded over the lines), and `Strings.Join`, `Strings.StartsWith` and `Strings.Contains` (`join`, `starts_with` and `includes`) are plain definitions with no contract of their own. What is proved about them is in the rows for `StoreTouchesOneKey`, `StoreAllOverrides`, `ReorderAllShape`, `ReorderAllMembers`, `Split`, `ParseLine` and `FindDetails`.

## Left out

- The Docker log stream, `strip_ansi_escapes::strip`, the UTF-8 decoding and its `unwrap`, the `TtyChunk` match and `eprintln!` in `server/src/docker.rs` are I/O, or foreign calls applied before the line is parsed. The model starts from the decoded stdout lines.
- The `Mutex` around the map is not modelled. `LogTable` is owned by one sequential caller.
- `serde_json::from_str` is the parameter `parse: string -> Option<Json>`. Which strings are valid JSON, and how they decode, is not modelled.
- The `Log` record's serde attributes (the `executionArn` rename) concern serialisation only. They are not modelled.
- Docker.LogTable.Insert: the `linked_hash_map` crate's source is not part of this model. The key order assumes that inserting an existing key moves it to the back. The contents lemmas (`StoreTouchesOneKey`, `StoreAllOverrides`, `ReprocessKeepsContents`) do not depend on this.
- `server/src/server.rs` is not part of this model: argument parsing, the cron job, the HTTP routes and JSON serialisation of the map.
- `src/useFetch.tsx` is not part of this model: the fetch hook, its mount ref and its re-entrancy guard. The same goes for the refresh timer in `src/App.tsx` and all JSX, routing and toasts.
- A message that is JSON `null` makes the browser throw a `TypeError` when it reads `message.Type` or calls `Object.entries(message)`. The model treats such a record as having no type and no details.
- App.SortByStarted: JavaScript's comparator returns -1 on equal start dates, so the engine may put tied rows in any order. The model fixes one order (ties keep the insertion order) and proves only sortedness and permutation.
- Strings.Less: JavaScript compares strings by UTF-16 code unit, and the model compares them by code point. The two differ only for characters outside the Basic Multilingual Plane.
- App.WriteExecutions: `names` is the order in which keys were first written. JavaScript lists integer-like keys (such as `"42"`) first, in numeric order, and only then the other keys in writing order. The model does not capture that reordering.
- App.Executions: the key order it states inherits the same gap about integer-like keys.
- App.Entries: it lists keys in writing order, not with integer-like keys first. Together with the gap above, this only affects the list view when start dates tie.
- App.Lookup: for an object with a repeated key, `JSON.parse` keeps the last value and the model reads the first. The objects the browser receives come from `serde_json` maps, so their keys are distinct.
- The React `useMemo` caching is not modelled. Each memo is a function (or method) of its inputs.
