/**
 * The browser's aggregation of log records into executions: the distinct
 * execution ARNs, one summary per ARN (its records, status, first and
 * last date) written into a record keyed by execution name, the event
 * details shown for one record, and the list view sorted by start date.
 */
module App {
  import opened Wrappers
  import opened Seqs
  import opened Strings
  import opened Records

  const SucceededType: string := "ExecutionSucceeded"
  const FailedType: string := "ExecutionFailed"
  const DetailsKey: string := "EventDetails"

  /** JavaScript truthiness: the falsy JSON values are exactly `null`, `false`, `0` and `""`. */
  predicate Truthy(j: Json): (b: bool)
    ensures !b <==> j == JNull || j == JBool(false) || j == JNumber(0.0) || j == JString([])
  {
    match j
    case JNull => false
    case JBool(b) => b
    case JNumber(n) => n != 0.0
    case JString(s) => s != []
    case JArray(_) => true
    case JObject(_) => true
  }

  /** Reading a property of an object: the value of the first entry with that key. */
  function Lookup(fields: seq<(string, Json)>, name: string): (r: Option<Json>)
    ensures r.None? <==> forall i :: 0 <= i < |fields| ==> fields[i].0 != name
    ensures r.Some? ==> exists i :: 0 <= i < |fields| && fields[i] == (name, r.value)
  {
    if fields == [] then None
    else if fields[0].0 == name then
      assert fields[0] == (name, fields[0].1);
      Some(fields[0].1)
    else
      var r := Lookup(fields[1..], name);
      if r.Some? then
        var i :| 0 <= i < |fields[1..]| && fields[1..][i] == (name, r.value);
        assert fields[i + 1] == (name, r.value);
        r
      else
        r
  }

  /** With distinct keys, the property read is the value of the one entry with that key. */
  lemma LookupDistinct(fields: seq<(string, Json)>, name: string, i: nat)
    requires DistinctKeys(fields)
    requires i < |fields| && fields[i].0 == name
    ensures Lookup(fields, name) == Some(fields[i].1)
  {
    var r := Lookup(fields, name);
    var k :| 0 <= k < |fields| && fields[k] == (name, r.value);
    assert k == i;
  }

  /** `log.message.Type === t`. */
  predicate HasType(log: Log, t: string) {
    log.message.JObject? && Lookup(log.message.fields, "Type") == Some(JString(t))
  }

  /**
   * A record has type `t` only if its message is an object with a `Type`
   * entry holding the string `t`; for the objects the browser receives
   * (distinct keys) such an entry is also enough.
   */
  lemma HasTypeEntry(log: Log, t: string)
    ensures HasType(log, t) ==>
      log.message.JObject? && exists i :: 0 <= i < |log.message.fields| && log.message.fields[i] == ("Type", JString(t))
    ensures
      && log.message.JObject?
      && DistinctKeys(log.message.fields)
      && (exists i :: 0 <= i < |log.message.fields| && log.message.fields[i] == ("Type", JString(t)))
      ==> HasType(log, t)
  {
    if log.message.JObject? && DistinctKeys(log.message.fields) {
      var fields := log.message.fields;
      if i :| 0 <= i < |fields| && fields[i] == ("Type", JString(t)) {
        LookupDistinct(fields, "Type", i);
      }
    }
  }

  /** `logs.some(log => log.message.Type === t)`. */
  function SomeOfType(logs: seq<Log>, t: string): (r: bool)
    ensures r <==> exists i :: 0 <= i < |logs| && HasType(logs[i], t)
  {
    if logs == [] then false
    else HasType(logs[0], t) || SomeOfType(logs[1..], t)
  }

  datatype Status = Successful | Failed | Running {
    function Text(): string {
      match this
      case Successful => "SUCCESSFUL"
      case Failed => "FAILED"
      case Running => "RUNNING"
    }

    /** The CSS classes an execution is drawn with: one class pair per status. */
    function Color(): (c: string)
      ensures c == "border-emerald-500 bg-emerald-200" <==> this == Successful
      ensures c == "border-red-500 bg-red-200" <==> this == Failed
      ensures c == "border-slate-500 bg-slate-200" <==> this == Running
    {
      if Text() == "SUCCESSFUL" then "border-emerald-500 bg-emerald-200"
      else if Text() == "FAILED" then "border-red-500 bg-red-200"
      else "border-slate-500 bg-slate-200"
    }

    /** Running < Failed < Successful, the precedence of the status rule. */
    function Rank(): nat {
      match this
      case Running => 0
      case Failed => 1
      case Successful => 2
    }
  }

  /**
   * The status of a group of records: successful when any record is an
   * `ExecutionSucceeded` event, even beside an `ExecutionFailed` one;
   * failed when a record is `ExecutionFailed` and none succeeded;
   * running otherwise.
   */
  function DeriveStatus(logs: seq<Log>): (s: Status)
    ensures s == Successful <==> exists i :: 0 <= i < |logs| && HasType(logs[i], SucceededType)
    ensures s == Failed <==>
      && (exists i :: 0 <= i < |logs| && HasType(logs[i], FailedType))
      && !(exists i :: 0 <= i < |logs| && HasType(logs[i], SucceededType))
    ensures s == Running <==>
      && !(exists i :: 0 <= i < |logs| && HasType(logs[i], FailedType))
      && !(exists i :: 0 <= i < |logs| && HasType(logs[i], SucceededType))
  {
    var successful := SomeOfType(logs, SucceededType);
    var failed := SomeOfType(logs, FailedType);
    if successful then Successful else if failed then Failed else Running
  }

  /**
   * More records never lower the status: a terminal status stays terminal,
   * and a successful execution stays successful.
   */
  lemma StatusMonotone(logs: seq<Log>, more: seq<Log>)
    ensures DeriveStatus(logs).Rank() <= DeriveStatus(logs + more).Rank()
  {
    var all := logs + more;
    forall i, t | 0 <= i < |logs| && HasType(logs[i], t)
      ensures exists j :: 0 <= j < |all| && HasType(all[j], t)
    {
      assert all[i] == logs[i];
    }
  }

  /** The status depends on which records a group holds, not on their order. */
  lemma StatusIgnoresOrder(logs: seq<Log>, other: seq<Log>)
    requires multiset(logs) == multiset(other)
    ensures DeriveStatus(logs) == DeriveStatus(other)
  {
    forall i, t | 0 <= i < |logs| && HasType(logs[i], t)
      ensures exists j :: 0 <= j < |other| && HasType(other[j], t)
    {
      assert logs[i] in multiset(other);
      var j :| 0 <= j < |other| && other[j] == logs[i];
    }
    forall j, t | 0 <= j < |other| && HasType(other[j], t)
      ensures exists i :: 0 <= i < |logs| && HasType(logs[i], t)
    {
      assert other[j] in multiset(logs);
      var i :| 0 <= i < |logs| && logs[i] == other[j];
    }
  }

  /** The ARN of every record, in record order. */
  function ArnsOf(data: seq<Log>): seq<string> {
    seq(|data|, i requires 0 <= i < |data| => data[i].executionArn)
  }

  /**
   * The `executionArns` memo: the ARNs that occur in the data, each once;
   * none when there is no data yet.
   */
  function ExecutionArns(data: Option<seq<Log>>): (r: seq<string>)
    ensures forall a :: a in r <==> data.Some? && a in ArnsOf(data.value)
    ensures Distinct(r)
  {
    match data
    case None => []
    case Some(d) => Dedup(ArnsOf(d))
  }

  /** Index of the first record of an execution. */
  function FirstMatch(data: seq<Log>, arn: string): nat
    requires arn in ArnsOf(data)
  {
    FirstIndex(ArnsOf(data), arn)
  }

  /** Index of the last record of an execution. */
  function LastMatch(data: seq<Log>, arn: string): (r: nat)
    requires arn in ArnsOf(data)
    ensures r < |data| && data[r].executionArn == arn
    ensures forall j :: r < j < |data| ==> data[j].executionArn != arn
  {
    var n := |data| - 1;
    if data[n].executionArn == arn then n
    else
      assert ArnsOf(data[..n]) == ArnsOf(data)[..n];
      LastMatch(data[..n], arn)
  }

  /** The ARNs execute in the order in which each first occurs in the data. */
  lemma ExecutionArnsInFirstOccurrenceOrder(data: seq<Log>)
    ensures forall i, j :: 0 <= i < j < |ExecutionArns(Some(data))| ==>
      FirstMatch(data, ExecutionArns(Some(data))[i]) < FirstMatch(data, ExecutionArns(Some(data))[j])
  {
    DedupFirstOccurrenceOrder(ArnsOf(data));
  }

  /** `data.filter(log => log.executionArn === arn)`. */
  function Filter(data: seq<Log>, arn: string): (r: seq<Log>)
    ensures |r| > 0 <==> arn in ArnsOf(data)
  {
    if data == [] then []
    else
      var n := |data| - 1;
      assert ArnsOf(data) == ArnsOf(data[..n]) + [data[n].executionArn];
      Filter(data[..n], arn) + (if data[n].executionArn == arn then [data[n]] else [])
  }

  /** The group holds every record of that ARN, as often as the data does, and nothing else. */
  lemma {:induction false} FilterCount(data: seq<Log>, arn: string)
    ensures forall x :: multiset(Filter(data, arn))[x] == if x.executionArn == arn then multiset(data)[x] else 0
    decreases |data|
  {
    if data != [] {
      var n := |data| - 1;
      FilterCount(data[..n], arn);
      assert data == data[..n] + [data[n]];
    }
  }

  /** Filtering a concatenation filters each part: the records keep their input order. */
  lemma {:induction false} FilterConcat(a: seq<Log>, b: seq<Log>, arn: string)
    ensures Filter(a + b, arn) == Filter(a, arn) + Filter(b, arn)
    decreases |b|
  {
    if b == [] {
      assert a + b == a;
    } else {
      var n := |b| - 1;
      assert (a + b)[..|a + b| - 1] == a + b[..n];
      FilterConcat(a, b[..n], arn);
    }
  }

  /** The first and last of an execution's records are its first and last in the data. */
  lemma {:induction false} FilterEnds(data: seq<Log>, arn: string)
    requires arn in ArnsOf(data)
    ensures Filter(data, arn)[0] == data[FirstMatch(data, arn)]
    ensures Filter(data, arn)[|Filter(data, arn)| - 1] == data[LastMatch(data, arn)]
    decreases |data|
  {
    var n := |data| - 1;
    var init := data[..n];
    assert ArnsOf(init) == ArnsOf(data)[..n];
    if arn in ArnsOf(init) {
      FilterEnds(init, arn);
      FirstIndexOfPrefix(ArnsOf(data), n, arn);
      if data[n].executionArn != arn {
        assert LastMatch(data, arn) == LastMatch(init, arn);
      }
    } else {
      assert Filter(init, arn) == [];
      assert data[n].executionArn == arn;
      assert FirstMatch(data, arn) == n;
    }
  }

  /** A group has a record of type `t` exactly when the data has one for that ARN. */
  lemma FilterHasType(data: seq<Log>, arn: string, t: string)
    ensures SomeOfType(Filter(data, arn), t) <==>
      exists i :: 0 <= i < |data| && data[i].executionArn == arn && HasType(data[i], t)
  {
    var logs := Filter(data, arn);
    FilterCount(data, arn);
    if SomeOfType(logs, t) {
      var i :| 0 <= i < |logs| && HasType(logs[i], t);
      assert multiset(logs)[logs[i]] > 0;
      assert logs[i] in multiset(data);
      var j :| 0 <= j < |data| && data[j] == logs[i];
    }
    if exists i :: 0 <= i < |data| && data[i].executionArn == arn && HasType(data[i], t) {
      var i :| 0 <= i < |data| && data[i].executionArn == arn && HasType(data[i], t);
      assert multiset(data)[data[i]] > 0;
      assert data[i] in multiset(logs);
      var j :| 0 <= j < |logs| && logs[j] == data[i];
    }
  }

  /** The concatenation of the groups of `arns`, in that order. */
  function Groups(data: seq<Log>, arns: seq<string>): seq<Log> {
    if arns == [] then [] else Filter(data, arns[0]) + Groups(data, arns[1..])
  }

  lemma {:induction false} GroupsCount(data: seq<Log>, arns: seq<string>)
    requires Distinct(arns)
    ensures forall x :: multiset(Groups(data, arns))[x] == if x.executionArn in arns then multiset(data)[x] else 0
  {
    if arns != [] {
      GroupsCount(data, arns[1..]);
      FilterCount(data, arns[0]);
      assert arns[0] !in arns[1..];
    }
  }

  /**
   * Partition: over the distinct ARNs, the groups together hold every
   * record of the data exactly once.
   */
  lemma GroupsPartitionData(data: seq<Log>)
    ensures multiset(Groups(data, ExecutionArns(Some(data)))) == multiset(data)
  {
    var arns := ExecutionArns(Some(data));
    GroupsCount(data, arns);
    forall x ensures multiset(Groups(data, arns))[x] == multiset(data)[x] {
      if x in data {
        var i :| 0 <= i < |data| && data[i] == x;
        assert ArnsOf(data)[i] == x.executionArn;
      }
    }
  }

  /** What the view keeps per execution. */
  datatype Execution = Execution(statusColor: string, status: Status, started: string, ended: string, logs: seq<Log>)

  /**
   * The summary the loop writes for one ARN: its records in input order,
   * started and ended at the dates of its first and last record in arrival
   * order (nothing is sorted), its status by the precedence rule, and the
   * color of that status.
   */
  function Summarize(data: seq<Log>, arn: string): (e: Execution)
    requires arn in ArnsOf(data)
    ensures e.logs == Filter(data, arn)
    ensures e.started == data[FirstMatch(data, arn)].date
    ensures e.ended == data[LastMatch(data, arn)].date
    ensures e.status == Successful <==>
      exists i :: 0 <= i < |data| && data[i].executionArn == arn && HasType(data[i], SucceededType)
    ensures e.status == Failed <==>
      && (exists i :: 0 <= i < |data| && data[i].executionArn == arn && HasType(data[i], FailedType))
      && !(exists i :: 0 <= i < |data| && data[i].executionArn == arn && HasType(data[i], SucceededType))
    ensures e.statusColor == e.status.Color()
  {
    var logs := Filter(data, arn);
    FilterEnds(data, arn);
    FilterHasType(data, arn, SucceededType);
    FilterHasType(data, arn, FailedType);
    var status := DeriveStatus(logs);
    Execution(status.Color(), status, logs[0].date, logs[|logs| - 1].date, logs)
  }

  /** The execution of a single record starts and ends at that record's date. */
  lemma SingleRecordExecution(data: seq<Log>, i: nat)
    requires i < |data|
    requires forall j :: 0 <= j < |data| && j != i ==> data[j].executionArn != data[i].executionArn
    ensures data[i].executionArn in ArnsOf(data)
    ensures Summarize(data, data[i].executionArn).started == data[i].date
    ensures Summarize(data, data[i].executionArn).ended == data[i].date
  {
    assert ArnsOf(data)[i] == data[i].executionArn;
  }

  /** `executionArn.split(":")[7]`: `None` when the ARN has fewer than eight fields. */
  function Name(arn: string): (r: Option<string>)
    ensures r.Some? <==> CountChar(arn, ':') >= 7
    ensures r.Some? ==> ':' !in r.value
  {
    var fields := Split(arn, [':']);
    SplitCharCount(arn, ':');
    if |fields| > 7 then
      ContainsChar(fields[7], ':');
      Some(fields[7])
    else None
  }

  /**
   * The name is the eighth colon-separated field: six colons before it,
   * one right before it, and after it either the end or another colon.
   */
  predicate SplitsAtEighthField(arn: string, pre: string, name: string, post: string) {
    && arn == pre + [':'] + name + post
    && CountChar(pre, ':') == 6
    && (post == [] || post[0] == ':')
  }

  /** Pieces free of ':' joined with ':' split around the eighth piece. */
  lemma JoinAroundEighth(fields: seq<string>)
    requires |fields| > 7
    requires forall i :: 0 <= i < |fields| ==> ':' !in fields[i]
    ensures SplitsAtEighthField(Join(fields, [':']), Join(fields[..7], [':']), fields[7],
                                if |fields| > 8 then [':'] + Join(fields[8..], [':']) else [])
  {
    JoinAt(fields, 7, [':']);
    JoinFrom(fields, 7, [':']);
    CountCharJoin(fields[..7], ':');
  }

  lemma NameIsEighthField(arn: string)
    requires Name(arn).Some?
    ensures exists pre, post :: SplitsAtEighthField(arn, pre, Name(arn).value, post)
  {
    var fields := Split(arn, [':']);
    SplitCharPieces(arn, ':');
    JoinAroundEighth(fields);
  }

  /** The property key `out[name]` writes: an undefined name becomes the key "undefined". */
  function Key(arn: string): (k: string)
    ensures CountChar(arn, ':') < 7 ==> k == "undefined"
    ensures CountChar(arn, ':') >= 7 ==> Name(arn) == Some(k) && exists pre, post :: SplitsAtEighthField(arn, pre, k, post)
  {
    match Name(arn)
    case Some(name) =>
      NameIsEighthField(arn);
      name
    case None => "undefined"
  }

  /**
   * The one key an assignment cannot store: `out` is a plain object, so
   * writing `out["__proto__"]` runs the inherited setter, which replaces the
   * record's prototype and adds no property of its own.
   */
  const ProtoKey: string := "__proto__"

  /** The keys the loop writes as properties of its own, in writing order. */
  function StoredKeys(arns: seq<string>): (r: seq<string>)
    ensures ProtoKey !in r
  {
    if arns == [] then []
    else
      var k := Key(arns[|arns| - 1]);
      StoredKeys(arns[..|arns| - 1]) + (if k == ProtoKey then [] else [k])
  }

  /** No later ARN of `arns` has the same key as the one at `i`. */
  ghost predicate LastWithKey(arns: seq<string>, i: int) {
    0 <= i < |arns| && forall k :: i < k < |arns| ==> Key(arns[k]) != Key(arns[i])
  }

  /**
   * The `out` record: `names` is its property order (a new name joins the
   * back, a rewritten one keeps its place) and `byName` its contents.
   */
  datatype ExecutionTable = ExecutionTable(names: seq<string>, byName: map<string, Execution>)

  lemma StoredKeysSnoc(arns: seq<string>, i: nat)
    requires i < |arns|
    ensures StoredKeys(arns[..i + 1]) == StoredKeys(arns[..i]) + (if Key(arns[i]) == ProtoKey then [] else [Key(arns[i])])
  {
    assert arns[..i + 1][..i] == arns[..i];
  }

  /** The key order after writing one more key into the record. */
  lemma DedupSnoc(s: seq<string>, x: string)
    ensures Dedup(s + [x]) == if x in s then Dedup(s) else Dedup(s) + [x]
  {
    assert (s + [x])[..|s|] == s;
  }

  /** An ARN last with its key among the first `i + 1` is last among the first `i`, or is the `i`-th. */
  lemma LastWithKeyShrinks(arns: seq<string>, i: nat, j: nat)
    requires j < i < |arns|
    requires LastWithKey(arns[..i + 1], j)
    ensures LastWithKey(arns[..i], j)
    ensures Key(arns[j]) != Key(arns[i])
  {
    assert arns[..i + 1][i] == arns[i];
    assert arns[..i + 1][j] == arns[j];
    forall k | j < k < i ensures Key(arns[..i][k]) != Key(arns[..i][j]) {
      assert arns[..i][k] == arns[..i + 1][k];
    }
  }

  /** The summary of each ARN of `arns`, in that order. */
  function Summaries(data: seq<Log>, arns: seq<string>): (r: seq<Execution>)
    requires forall a :: a in arns ==> a in ArnsOf(data)
    ensures |r| == |arns|
    ensures forall j :: 0 <= j < |arns| ==> r[j] == Summarize(data, arns[j])
  {
    seq(|arns|, j requires 0 <= j < |arns| => Summarize(data, arns[j]))
  }

  /** Under the key of every ARN among the first `i` that is the last with it, that ARN's value. */
  ghost predicate Written(arns: seq<string>, vals: seq<Execution>, i: nat, out: map<string, Execution>)
    requires i <= |arns| == |vals|
  {
    forall j :: LastWithKey(arns[..i], j) && Key(arns[j]) != ProtoKey ==>
      Key(arns[j]) in out && out[Key(arns[j])] == vals[j]
  }

  lemma WrittenStep(arns: seq<string>, vals: seq<Execution>, i: nat, out: map<string, Execution>)
    requires i < |arns| == |vals|
    requires Written(arns, vals, i, out)
    ensures Written(arns, vals, i + 1, if Key(arns[i]) == ProtoKey then out else out[Key(arns[i]) := vals[i]])
  {
    var name := Key(arns[i]);
    var out' := if name == ProtoKey then out else out[name := vals[i]];
    forall j | LastWithKey(arns[..i + 1], j) && Key(arns[j]) != ProtoKey
      ensures Key(arns[j]) in out' && out'[Key(arns[j])] == vals[j]
    {
      if j < i {
        LastWithKeyShrinks(arns, i, j);
        assert out[Key(arns[j])] == vals[j];
      } else {
        assert j == i && name != ProtoKey;
      }
    }
  }

  /**
   * Writing the next ARN's key: a new key joins the back of the key order,
   * a known one keeps its place, and `__proto__` changes nothing.
   */
  lemma NamesStep(arns: seq<string>, i: nat, names: seq<string>, out: map<string, Execution>, v: Execution)
    requires i < |arns|
    requires names == Dedup(StoredKeys(arns[..i]))
    requires forall n :: n in out <==> n in names
    ensures
      var name := Key(arns[i]);
      var names' := if name == ProtoKey || name in out then names else names + [name];
      var out' := if name == ProtoKey then out else out[name := v];
      && names' == Dedup(StoredKeys(arns[..i + 1]))
      && forall n :: n in out' <==> n in names'
  {
    StoredKeysSnoc(arns, i);
    if Key(arns[i]) != ProtoKey {
      DedupSnoc(StoredKeys(arns[..i]), Key(arns[i]));
    } else {
      assert StoredKeys(arns[..i + 1]) == StoredKeys(arns[..i]);
    }
  }

  /**
   * The statements the loop runs for one ARN, kept as statements: its
   * records, whether any of them succeeded or failed, the dates of the
   * first and last, the status and its color. `Summarize` is their
   * specification.
   */
  method SummarizeExecution(data: seq<Log>, arn: string) returns (e: Execution)
    requires arn in ArnsOf(data)
    ensures e == Summarize(data, arn)
  {
    var logs := Filter(data, arn);
    var successful := SomeOfType(logs, SucceededType);
    var failed := SomeOfType(logs, FailedType);
    var started := logs[0].date;
    var ended := logs[|logs| - 1].date;
    var status := if successful then Successful else if failed then Failed else Running;
    var statusColor := status.Color();
    e := Execution(statusColor, status, started, ended, logs);
  }

  /** After the last ARN, every key holds the value of the last ARN with that key. */
  lemma WrittenAll(arns: seq<string>, vals: seq<Execution>, out: map<string, Execution>)
    requires |arns| == |vals|
    requires Written(arns, vals, |arns|, out)
    ensures forall i :: LastWithKey(arns, i) && Key(arns[i]) != ProtoKey ==> Key(arns[i]) in out && out[Key(arns[i])] == vals[i]
  {
    assert arns[..|arns|] == arns;
  }

  /**
   * The loop of the `executions` memo over `arns`: each ARN's summary is
   * written under its key; when two ARNs share a key, the later ARN's
   * summary is the one kept, at the place the first one took. A summary
   * written under `__proto__` is not kept at all.
   */
  method WriteExecutions(data: seq<Log>, arns: seq<string>) returns (t: ExecutionTable)
    requires forall a :: a in arns ==> a in ArnsOf(data)
    ensures t.names == Dedup(StoredKeys(arns))
    ensures forall n :: n in t.byName <==> n in t.names
    ensures ProtoKey !in t.byName
    ensures forall i :: LastWithKey(arns, i) && Key(arns[i]) != ProtoKey ==>
      Key(arns[i]) in t.byName && t.byName[Key(arns[i])] == Summarize(data, arns[i])
  {
    var names: seq<string> := [];
    var out: map<string, Execution> := map[];
    ghost var vals := Summaries(data, arns);
    for i := 0 to |arns|
      invariant names == Dedup(StoredKeys(arns[..i]))
      invariant forall n :: n in out <==> n in names
      invariant Written(arns, vals, i, out)
    {
      var arn := arns[i];
      var name := Key(arn);
      var execution := SummarizeExecution(data, arn);
      NamesStep(arns, i, names, out, execution);
      WrittenStep(arns, vals, i, out);
      if name != ProtoKey {
        if name !in out {
          names := names + [name];
        }
        out := out[name := execution];
      }
    }
    assert arns[..|arns|] == arns;
    WrittenAll(arns, vals, out);
    t := ExecutionTable(names, out);
  }

  /**
   * The `executions` memo: no table without data, otherwise the table the
   * loop writes over the distinct ARNs.
   */
  method Executions(data: Option<seq<Log>>) returns (r: Option<ExecutionTable>)
    ensures r.None? <==> data.None?
    ensures r.Some? ==>
      var arns := ExecutionArns(data);
      && r.value.names == Dedup(StoredKeys(arns))
      && (forall n :: n in r.value.byName <==> n in r.value.names)
      && ProtoKey !in r.value.byName
      && forall i :: LastWithKey(arns, i) && Key(arns[i]) != ProtoKey ==>
           Key(arns[i]) in r.value.byName && r.value.byName[Key(arns[i])] == Summarize(data.value, arns[i])
  {
    if data.None? {
      return None;
    }
    var t := WriteExecutions(data.value, ExecutionArns(data));
    return Some(t);
  }

  /**
   * A started record at "t1" followed by a succeeded record at "t2" of the
   * same execution: one successful execution from "t1" to "t2" holding both.
   */
  lemma StartedThenSucceeded(arn: string)
    ensures
      var data := [Log("t1", arn, JObject([("Type", JString("ExecutionStarted"))])),
                   Log("t2", arn, JObject([("Type", JString(SucceededType))]))];
      && arn in ArnsOf(data)
      && Summarize(data, arn) == Execution("border-emerald-500 bg-emerald-200", Successful, "t1", "t2", data)
  {
    var data := [Log("t1", arn, JObject([("Type", JString("ExecutionStarted"))])),
                 Log("t2", arn, JObject([("Type", JString(SucceededType))]))];
    assert ArnsOf(data)[0] == arn;
    assert Filter(data[..1], arn) == [data[0]] by {
      assert data[..1][..0] == [];
    }
    assert Filter(data, arn) == data;
    assert HasType(data[1], SucceededType);
  }

  /** One row of the list view: `[name, execution]` as `Object.entries` gives it. */
  type Row = (string, Execution)

  predicate SortedByStartedDesc(rows: seq<Row>) {
    forall i, j :: 0 <= i < j < |rows| ==> !Less(rows[i].1.started, rows[j].1.started)
  }

  /** A row that starts no earlier than the first of sorted rows can go in front of them. */
  lemma PrependSorted(x: Row, rows: seq<Row>)
    requires SortedByStartedDesc(rows) && rows != []
    requires !Less(x.1.started, rows[0].1.started)
    ensures SortedByStartedDesc([x] + rows)
  {
    forall k | 0 <= k < |rows| ensures !Less(x.1.started, rows[k].1.started) {
      if k > 0 { AtLeastTransitive(x.1.started, rows[0].1.started, rows[k].1.started); }
    }
  }

  /** A bound on the start of every row of `tail` and of `x` bounds every row of a permutation of both. */
  lemma BoundOfPermutation(y: Row, x: Row, tail: seq<Row>, rest: seq<Row>)
    requires multiset(rest) == multiset(tail) + multiset{x}
    requires !Less(y.1.started, x.1.started)
    requires forall k :: 0 <= k < |tail| ==> !Less(y.1.started, tail[k].1.started)
    ensures forall k :: 0 <= k < |rest| ==> !Less(y.1.started, rest[k].1.started)
  {
    forall k | 0 <= k < |rest| ensures !Less(y.1.started, rest[k].1.started) {
      assert rest[k] in multiset(rest);
      if rest[k] != x {
        assert rest[k] in multiset(tail);
        var m :| 0 <= m < |tail| && tail[m] == rest[k];
      }
    }
  }

  /** A row that starts no earlier than any row of sorted `rest` can go in front of it. */
  lemma ConsSorted(y: Row, rest: seq<Row>)
    requires SortedByStartedDesc(rest)
    requires forall k :: 0 <= k < |rest| ==> !Less(y.1.started, rest[k].1.started)
    ensures SortedByStartedDesc([y] + rest)
  {
    var r := [y] + rest;
    forall i, j | 0 <= i < j < |r| ensures !Less(r[i].1.started, r[j].1.started) {
      if i > 0 {
        assert r[i] == rest[i - 1] && r[j] == rest[j - 1];
      } else {
        assert r[j] == rest[j - 1];
      }
    }
  }

  /** One step of the insertion sort: `x` goes before the first row it does not start before. */
  function InsertByStarted(x: Row, rows: seq<Row>): (r: seq<Row>)
    requires SortedByStartedDesc(rows)
    ensures SortedByStartedDesc(r)
    ensures multiset(r) == multiset(rows) + multiset{x}
  {
    if rows == [] then [x]
    else
      assert rows == [rows[0]] + rows[1..];
      if !Less(x.1.started, rows[0].1.started) then
        PrependSorted(x, rows);
        [x] + rows
      else
        var rest := InsertByStarted(x, rows[1..]);
        assert !Less(rows[0].1.started, x.1.started) by {
          if Less(rows[0].1.started, x.1.started) {
            LessTransitive(x.1.started, rows[0].1.started, x.1.started);
            LessIrreflexive(x.1.started);
          }
        }
        BoundOfPermutation(rows[0], x, rows[1..], rest);
        ConsSorted(rows[0], rest);
        [rows[0]] + rest
  }

  /**
   * The list view's sort: the same rows, latest start first. The source's
   * comparator orders rows with equal start dates arbitrarily; this one
   * keeps an order among them too.
   */
  function SortByStarted(rows: seq<Row>): (r: seq<Row>)
    ensures SortedByStartedDesc(r)
    ensures multiset(r) == multiset(rows)
  {
    if rows == [] then []
    else
      assert rows == [rows[0]] + rows[1..];
      InsertByStarted(rows[0], SortByStarted(rows[1..]))
  }

  /** `Object.entries(executions)`: each name with its execution, in property order. */
  function Entries(t: ExecutionTable): (r: seq<Row>)
    requires forall n :: n in t.names ==> n in t.byName
    ensures |r| == |t.names|
    ensures forall i :: 0 <= i < |r| ==> r[i].0 == t.names[i] && r[i].1 == t.byName[t.names[i]]
    ensures forall p :: p in r <==> p.0 in t.names && p.1 == t.byName[p.0]
  {
    var r := seq(|t.names|, i requires 0 <= i < |t.names| => (t.names[i], t.byName[t.names[i]]));
    assert forall n :: n in t.names ==> (n, t.byName[n]) in r by {
      forall n | n in t.names ensures (n, t.byName[n]) in r {
        var i :| 0 <= i < |t.names| && t.names[i] == n;
        assert r[i] == (n, t.byName[n]);
      }
    }
    r
  }

  /** Any reordering of the entries of a table with distinct names shows each name once. */
  lemma EntriesPermutationOncePerName(t: ExecutionTable, r: seq<Row>)
    requires forall n :: n in t.names ==> n in t.byName
    requires multiset(r) == multiset(Entries(t))
    ensures Distinct(t.names) ==> forall i, j :: 0 <= i < j < |r| ==> r[i].0 != r[j].0
  {
    var entries := Entries(t);
    if Distinct(t.names) {
      assert Distinct(entries) by {
        forall i, j | 0 <= i < j < |entries| ensures entries[i] != entries[j] {
          assert entries[i].0 == t.names[i] != t.names[j] == entries[j].0;
        }
      }
      DistinctPermutation(entries, r);
      forall i, j | 0 <= i < j < |r| ensures r[i].0 != r[j].0 {
        assert r[i] in multiset(entries) && r[j] in multiset(entries);
      }
    }
  }

  /**
   * The list view, `Object.entries(executions).sort(...)`: each name with
   * its execution, once per name, latest start first.
   */
  function ListView(t: ExecutionTable): (r: seq<Row>)
    requires forall n :: n in t.names ==> n in t.byName
    ensures SortedByStartedDesc(r)
    ensures multiset(r) == multiset(Entries(t))
    ensures forall p :: p in r <==> p.0 in t.names && p.1 == t.byName[p.0]
    ensures |r| == |t.names|
    ensures Distinct(t.names) ==> forall i, j :: 0 <= i < j < |r| ==> r[i].0 != r[j].0
  {
    var entries := Entries(t);
    var r := SortByStarted(entries);
    assert |r| == |multiset(r)| == |multiset(entries)| == |entries|;
    assert forall p :: p in r <==> p in entries by {
      forall p ensures p in r <==> p in entries {
        assert p in r <==> p in multiset(r);
        assert p in entries <==> p in multiset(entries);
      }
    }
    EntriesPermutationOncePerName(t, r);
    r
  }

  /** The entries with a key that contains "EventDetails" (case-sensitive). */
  predicate IsDetailsKey(key: string) {
    Contains(key, DetailsKey)
  }

  /** Entry `i` is the first whose key is a details key. */
  predicate FirstDetails(fields: seq<(string, Json)>, i: int) {
    && 0 <= i < |fields|
    && IsDetailsKey(fields[i].0)
    && forall j :: 0 <= j < i ==> !IsDetailsKey(fields[j].0)
  }

  /** `Object.entries(message).find(([key]) => key.includes("EventDetails"))`. */
  function FindDetails(fields: seq<(string, Json)>): (r: Option<(string, Json)>)
    ensures r.None? <==> forall i :: 0 <= i < |fields| ==> !IsDetailsKey(fields[i].0)
    ensures r.Some? ==> exists i :: FirstDetails(fields, i) && fields[i] == r.value
  {
    if fields == [] then None
    else if IsDetailsKey(fields[0].0) then
      assert FirstDetails(fields, 0);
      Some(fields[0])
    else
      var r := FindDetails(fields[1..]);
      if r.Some? then
        var i :| FirstDetails(fields[1..], i) && fields[1..][i] == r.value;
        assert FirstDetails(fields, i + 1);
        r
      else
        r
  }

  lemma FirstDetailsUnique(fields: seq<(string, Json)>, i: int, j: int)
    requires FirstDetails(fields, i) && FirstDetails(fields, j)
    ensures i == j
  {
  }

  /**
   * The details `ExecutionLog` shows for a record, `None` standing for the
   * "No Data..." component: the value of the first entry whose key
   * contains "EventDetails", provided that value is truthy. Only an object
   * can have such a key: the entries of an array or a string are keyed by
   * index, and other values have none.
   */
  function EventDetail(message: Json): (r: Option<Json>)
    ensures r.Some? <==>
      message.JObject? && exists i :: FirstDetails(message.fields, i) && Truthy(message.fields[i].1)
    ensures r.Some? ==> exists i :: FirstDetails(message.fields, i) && r.value == message.fields[i].1
  {
    if !message.JObject? then None
    else
      match FindDetails(message.fields)
      case None => None
      case Some(entry) =>
        var i :| FirstDetails(message.fields, i) && message.fields[i] == entry;
        assert forall j :: FirstDetails(message.fields, j) ==> j == i by {
          forall j | FirstDetails(message.fields, j) ensures j == i {
            FirstDetailsUnique(message.fields, i, j);
          }
        }
        if Truthy(entry.1) then Some(entry.1) else None
  }
}
