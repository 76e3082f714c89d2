/**
 * Ingestion of the container's stdout in the log collector: each line is
 * split on ": ", trimmed, filtered on the Step Functions ARN prefix, its
 * message parsed as JSON, and the record stored in an insertion-ordered
 * table keyed by date.
 */
module Docker {
  import opened Wrappers
  import opened Seqs
  import opened Strings
  import opened Records

  const Separator: string := ": "
  const ArnPrefix: string := "arn:aws:states:"

  /** The line split on the separator, every piece trimmed. */
  function Pieces(line: string): (r: seq<string>)
    ensures |r| >= 1
    ensures |r| >= 2 <==> Contains(line, Separator)
    ensures forall i :: 0 <= i < |r| ==> Trimmed(r[i])
  {
    var raw := Split(line, Separator);
    seq(|raw|, i requires 0 <= i < |raw| => Trim(raw[i]))
  }

  /**
   * The pieces after the first two, joined back with the separator: empty
   * when the line has fewer than two separators.
   */
  function MessageSource(line: string): (r: string)
    ensures !Contains(line, Separator) ==> r == []
    ensures !Contains(After(line, Separator), Separator) ==> r == []
  {
    var ps := Pieces(line);
    SplitHead(line, Separator);
    if |ps| < 2 then [] else Join(ps[2..], Separator)
  }

  /**
   * The record a stdout line yields, if any. `parse` stands for
   * `serde_json::from_str`, `None` being its error result. A line is
   * accepted exactly when it has a separator, the trimmed text between
   * the first and second separator starts with the ARN prefix, and the
   * message source parses; the record's date is the trimmed text before
   * the first separator and its ARN the trimmed second field.
   */
  function ParseLine(line: string, parse: string -> Option<Json>): (r: Option<Log>)
    ensures r.Some? <==>
      && Contains(line, Separator)
      && StartsWith(Trim(Before(After(line, Separator), Separator)), ArnPrefix)
      && parse(MessageSource(line)).Some?
    ensures r.Some? ==>
      r.value == Log(Trim(Before(line, Separator)),
                     Trim(Before(After(line, Separator), Separator)),
                     parse(MessageSource(line)).value)
  {
    SplitHead(line, Separator);
    SplitHead(After(line, Separator), Separator);
    var ps := Pieces(line);
    if |ps| < 2 then None
    else
      var date, arn := ps[0], ps[1];
      if !StartsWith(arn, ArnPrefix) then None
      else
        match parse(Join(ps[2..], Separator))
        case None => None
        case Some(message) => Some(Log(date, arn, message))
  }

  /**
   * When no piece of the line carries surrounding whitespace, the message
   * source is exactly the text after the second separator.
   */
  lemma MessageSourceRoundTrip(line: string)
    requires Contains(line, Separator)
    requires forall i :: 0 <= i < |Split(line, Separator)| ==> Trimmed(Split(line, Separator)[i])
    ensures MessageSource(line) == After(After(line, Separator), Separator)
  {
    var raw := Split(line, Separator);
    forall i | 0 <= i < |raw| ensures Trim(raw[i]) == raw[i] {
      TrimOfTrimmed(raw[i]);
    }
    assert Pieces(line) == raw;
    var rest := After(line, Separator);
    SplitHead(line, Separator);
    SplitHead(rest, Separator);
    if |raw| == 2 {
      assert !Contains(rest, Separator);
    } else {
      assert raw[2..] == Split(rest, Separator)[1..];
    }
  }

  /** The record each line yields, in line order. */
  function ParseAll(lines: seq<string>, parse: string -> Option<Json>): seq<Option<Log>> {
    seq(|lines|, i requires 0 <= i < |lines| => ParseLine(lines[i], parse))
  }

  /** The table after one line's outcome: a record inserts or replaces the entry at its date. */
  function Store(m: map<string, Log>, rec: Option<Log>): map<string, Log> {
    match rec
    case None => m
    case Some(log) => m[log.date := log]
  }

  /** The key order after one line's outcome: a record's date moves to (or joins) the back. */
  function Reorder(order: seq<string>, rec: Option<Log>): seq<string> {
    match rec
    case None => order
    case Some(log) => Without(order, {log.date}) + [log.date]
  }

  function StoreAll(m: map<string, Log>, recs: seq<Option<Log>>): map<string, Log>
    decreases |recs|
  {
    if recs == [] then m
    else Store(StoreAll(m, recs[..|recs| - 1]), recs[|recs| - 1])
  }

  function ReorderAll(order: seq<string>, recs: seq<Option<Log>>): seq<string>
    decreases |recs|
  {
    if recs == [] then order
    else Reorder(ReorderAll(order, recs[..|recs| - 1]), recs[|recs| - 1])
  }

  /** A record touches only the entry at its date, and adds at most one entry. */
  lemma StoreTouchesOneKey(m: map<string, Log>, log: Log)
    ensures Store(m, Some(log)).Keys == m.Keys + {log.date}
    ensures Store(m, Some(log))[log.date] == log
    ensures forall k :: k in m && k != log.date ==> Store(m, Some(log))[k] == m[k]
    ensures |Store(m, Some(log))| <= |m| + 1
  {
    if log.date in m {
      assert Store(m, Some(log)).Keys == m.Keys;
    } else {
      assert Store(m, Some(log)).Keys == m.Keys + {log.date};
    }
  }

  /** Ingesting records into a table overrides it with what the records alone would build. */
  lemma {:induction false} StoreAllOverrides(m: map<string, Log>, recs: seq<Option<Log>>)
    ensures StoreAll(m, recs) == m + StoreAll(map[], recs)
    decreases |recs|
  {
    if recs != [] {
      StoreAllOverrides(m, recs[..|recs| - 1]);
    }
  }

  /**
   * Ingesting records into a key order takes their dates out of it and puts
   * them at the back, in the order the records alone would build; that
   * order holds only those dates.
   */
  lemma {:induction false} ReorderAllShape(order: seq<string>, recs: seq<Option<Log>>)
    ensures ReorderAll(order, recs) == Without(order, StoreAll(map[], recs).Keys) + ReorderAll([], recs)
    decreases |recs|
  {
    var keys := StoreAll(map[], recs).Keys;
    if recs == [] {
      WithoutDisjoint(order, keys);
    } else {
      var init := recs[..|recs| - 1];
      ReorderAllShape(order, init);
      ReorderAllShape([], init);
      var before := StoreAll(map[], init).Keys;
      var tail := ReorderAll([], init);
      match recs[|recs| - 1]
      case None =>
      case Some(log) =>
        var d := log.date;
        assert keys == before + {d};
        calc {
          ReorderAll(order, recs);
          Without(Without(order, before) + tail, {d}) + [d];
          { WithoutConcat(Without(order, before), tail, {d}); }
          Without(Without(order, before), {d}) + Without(tail, {d}) + [d];
          { WithoutTwice(order, before, {d}); }
          Without(order, keys) + (Without(tail, {d}) + [d]);
          { assert Without([], before) == []; assert [] + tail == tail; }
          Without(order, keys) + ReorderAll([], recs);
        }
    }
  }

  /** The order the records alone build holds exactly the dates they store. */
  lemma {:induction false} ReorderAllMembers(recs: seq<Option<Log>>)
    ensures forall k :: k in ReorderAll([], recs) <==> k in StoreAll(map[], recs)
    decreases |recs|
  {
    if recs != [] {
      var init := recs[..|recs| - 1];
      ReorderAllMembers(init);
      match recs[|recs| - 1]
      case None =>
      case Some(log) =>
        WithoutMembers(ReorderAll([], init), {log.date});
    }
  }

  /**
   * Re-reading the same log (the collector reads the whole container log
   * on every run) leaves the contents as one reading left them.
   */
  lemma ReprocessKeepsContents(m: map<string, Log>, recs: seq<Option<Log>>)
    ensures StoreAll(StoreAll(m, recs), recs) == StoreAll(m, recs)
  {
    var built := StoreAll(map[], recs);
    StoreAllOverrides(m, recs);
    StoreAllOverrides(StoreAll(m, recs), recs);
    assert (m + built) + built == m + built;
  }

  /** Re-reading the same log leaves the key order as one reading left it. */
  lemma ReprocessKeepsOrder(order: seq<string>, recs: seq<Option<Log>>)
    ensures ReorderAll(ReorderAll(order, recs), recs) == ReorderAll(order, recs)
  {
    var keys := StoreAll(map[], recs).Keys;
    var tail := ReorderAll([], recs);
    var once := ReorderAll(order, recs);
    ReorderAllShape(order, recs);
    ReorderAllShape(once, recs);
    ReorderAllMembers(recs);
    assert once == Without(order, keys) + tail;
    calc {
      ReorderAll(once, recs);
      Without(Without(order, keys) + tail, keys) + tail;
      { WithoutConcat(Without(order, keys), tail, keys); }
      Without(Without(order, keys), keys) + Without(tail, keys) + tail;
      { WithoutTwice(order, keys, keys); WithoutCovered(tail, keys); assert keys + keys == keys; }
      Without(order, keys) + [] + tail;
    }
  }

  /**
   * The collector's `LinkedHashMap<String, Log>`: `order` is its iteration
   * order and `entries` its contents. The map is owned by one sequential
   * object here; the `Mutex` around it is not modelled.
   */
  class LogTable {
    var order: seq<string>
    var entries: map<string, Log>

    ghost predicate Valid()
      reads this
    {
      && Distinct(order)
      && (forall k :: k in order ==> k in entries)
      && (forall k :: k in entries ==> k in order)
    }

    constructor ()
      ensures Valid() && order == [] && entries == map[]
    {
      order := [];
      entries := map[];
    }

    /**
     * `LinkedHashMap::insert`: sets the value at `key`; the key goes to the
     * back of the iteration order whether or not it was present.
     */
    method Insert(key: string, log: Log)
      requires Valid()
      modifies this
      ensures Valid()
      ensures entries == old(entries)[key := log]
      ensures order == Without(old(order), {key}) + [key]
      ensures |entries| <= |old(entries)| + 1
    {
      WithoutMembers(order, {key});
      order := Without(order, {key}) + [key];
      entries := entries[key := log];
      if key in old(entries) {
        assert entries.Keys == old(entries).Keys;
      } else {
        assert entries.Keys == old(entries).Keys + {key};
      }
    }

    /** One stdout line of the container log. */
    method HandleLine(line: string, parse: string -> Option<Json>)
      requires Valid()
      modifies this
      ensures Valid()
      ensures entries == Store(old(entries), ParseLine(line, parse))
      ensures order == Reorder(old(order), ParseLine(line, parse))
    {
      match ParseLine(line, parse)
      case Some(log) => Insert(log.date, log);
      case None =>
    }

    /** The loop of `gather_logs` over the container's stdout lines. */
    method GatherLogs(lines: seq<string>, parse: string -> Option<Json>)
      requires Valid()
      modifies this
      ensures Valid()
      ensures entries == StoreAll(old(entries), ParseAll(lines, parse))
      ensures order == ReorderAll(old(order), ParseAll(lines, parse))
    {
      ghost var recs := ParseAll(lines, parse);
      var i := 0;
      while i < |lines|
        invariant 0 <= i <= |lines|
        invariant Valid()
        invariant entries == StoreAll(old(entries), recs[..i])
        invariant order == ReorderAll(old(order), recs[..i])
      {
        assert recs[..i + 1][..i] == recs[..i];
        HandleLine(lines[i], parse);
        i := i + 1;
      }
      assert recs[..|lines|] == recs;
    }
  }
}
