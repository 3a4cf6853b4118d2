/** An inbound event notification of the manager protocol: a name, a set of
    header fields with unique names, and the time the client received it.

    A header assigned to an event is stored verbatim, except that the
    `Value` header of a `VarSet` event is first run through the
    `VarSetEncoding` decoder. Two events are equal when their names and
    headers agree; the receipt time plays no part. The best known time of
    an event is the epoch timestamp carried in its `Timestamp` header, or
    its receipt time when it has none. */
module Events {
  import opened Wrappers
  import VarSetEncoding

  /** Times are whole seconds since the epoch. */
  type Seconds = int

  datatype Event = Event(name: string, headers: map<string, string>, receiptTime: Seconds)

  /** The single event name / header name combination whose value is decoded. */
  predicate DecodesValue(name: string, key: string) {
    name == "VarSet" && key == "Value"
  }

  /** The value actually stored for a raw header value: decoded for the
      `Value` of a `VarSet` event, otherwise the raw value itself. The
      stored value is never longer than the raw one. */
  function ParseRawValue(name: string, key: string, value: string): (r: string)
    ensures |r| <= |value|
    ensures !DecodesValue(name, key) ==> r == value
    ensures DecodesValue(name, key) ==> r == VarSetEncoding.Decode(value)
  {
    if DecodesValue(name, key) then VarSetEncoding.Decode(value) else value
  }

  /** Header assignment `event[key] = value`: the key and the event's name
      and receipt time are kept, only the value may be transformed, and no
      other header changes. A key assigned again is overwritten. */
  function SetHeader(e: Event, key: string, value: string): (e': Event)
    ensures e'.name == e.name && e'.receiptTime == e.receiptTime
    ensures e'.headers.Keys == e.headers.Keys + {key}
    ensures forall k :: k in e.headers && k != key ==> e'.headers[k] == e.headers[k]
    ensures !DecodesValue(e.name, key) ==> e'.headers[key] == value
    ensures DecodesValue(e.name, key) ==> e'.headers[key] == VarSetEncoding.Decode(value)
  {
    e.(headers := e.headers[key := ParseRawValue(e.name, key, value)])
  }

  /** The keys a list of raw headers assigns. */
  function KeysOf(pairs: seq<(string, string)>): set<string> {
    set j | 0 <= j < |pairs| :: pairs[j].0
  }

  /** Assigning a list of raw headers one after the other, in order: the
      event keeps its name and receipt time and gains exactly the assigned
      keys. */
  function AssignAll(e: Event, pairs: seq<(string, string)>): (e': Event)
    ensures e'.name == e.name && e'.receiptTime == e.receiptTime
    ensures e'.headers.Keys == e.headers.Keys + KeysOf(pairs)
    decreases |pairs|
  {
    if |pairs| == 0 then e
    else
      var last := pairs[|pairs| - 1];
      SetHeader(AssignAll(e, pairs[..|pairs| - 1]), last.0, last.1)
  }

  /** A stored value depends only on the event's name, the key and the raw
      value, so assigning an equal value to a key twice changes nothing,
      and the later of two assignments to one key wins. */
  lemma SetHeaderLastWins(e: Event, key: string, v1: string, v2: string)
    ensures SetHeader(SetHeader(e, key, v1), key, v2) == SetHeader(e, key, v2)
  {
  }

  /** Assignments to two different keys do not interfere. */
  lemma SetHeaderCommutes(e: Event, k1: string, v1: string, k2: string, v2: string)
    requires k1 != k2
    ensures SetHeader(SetHeader(e, k1, v1), k2, v2) == SetHeader(SetHeader(e, k2, v2), k1, v1)
  {
  }

  /** After assigning a list of raw headers, a key holds the stored form of
      the raw value of its last assignment. */
  lemma {:induction false} AssignAllLastWins(e: Event, pairs: seq<(string, string)>, i: nat)
    requires i < |pairs|
    requires forall j :: i < j < |pairs| ==> pairs[j].0 != pairs[i].0
    ensures AssignAll(e, pairs).headers[pairs[i].0] == ParseRawValue(e.name, pairs[i].0, pairs[i].1)
    decreases |pairs|
  {
    var n := |pairs| - 1;
    var prefix := pairs[..n];
    var before := AssignAll(e, prefix);
    assert AssignAll(e, pairs) == SetHeader(before, pairs[n].0, pairs[n].1);
    assert before.name == e.name;
    if i < n {
      assert prefix[i] == pairs[i];
      assert pairs[n].0 != pairs[i].0;
      AssignAllLastWins(e, prefix, i);
    }
  }

  /** A key that is never assigned keeps its original value. */
  lemma {:induction false} AssignAllUntouched(e: Event, pairs: seq<(string, string)>, k: string)
    requires k in e.headers
    requires forall j :: 0 <= j < |pairs| ==> pairs[j].0 != k
    ensures AssignAll(e, pairs).headers[k] == e.headers[k]
    decreases |pairs|
  {
    if |pairs| > 0 {
      var n := |pairs| - 1;
      var prefix := pairs[..n];
      assert AssignAll(e, pairs) == SetHeader(AssignAll(e, prefix), pairs[n].0, pairs[n].1);
      AssignAllUntouched(e, prefix, k);
    }
  }

  /** Every value a key can be assigned is stored verbatim exactly when the
      event is not a `VarSet` or the key is not `Value`; for the `Value` of
      a `VarSet`, an escaped newline already comes out changed. */
  lemma VerbatimIffNotVarSetValue(e: Event, key: string)
    ensures (forall v :: SetHeader(e, key, v).headers[key] == v) <==> !DecodesValue(e.name, key)
  {
    if DecodesValue(e.name, key) {
      var v := "\\n";
      VarSetEncoding.DecodeEscapeHead('n', []);
      assert SetHeader(e, key, v).headers[key] == "\n";
    }
  }

  /** Event equality: the same name and the same headers. It is plain
      structural equality once the receipt time is forgotten. */
  predicate Same(a: Event, b: Event): (r: bool)
    ensures r <==> a.(receiptTime := 0) == b.(receiptTime := 0)
  {
    a.name == b.name && a.headers == b.headers
  }

  /** Receiving the same event at another time yields an equal event. */
  lemma SameIgnoresReceiptTime(e: Event, t: Seconds)
    ensures Same(e, e.(receiptTime := t))
  {
  }

  /** A different name, or one header with a different value, makes two
      events unequal. */
  lemma DifferenceBreaksSame(a: Event, b: Event, k: string)
    ensures a.name != b.name ==> !Same(a, b)
    ensures k in a.headers && k in b.headers && a.headers[k] != b.headers[k] ==> !Same(a, b)
  {
  }

  /** Assignment respects equality: the decoding rule looks only at the
      name, which equal events share. */
  lemma SetHeaderPreservesSame(a: Event, b: Event, key: string, value: string)
    requires Same(a, b)
    ensures Same(SetHeader(a, key, value), SetHeader(b, key, value))
  {
  }

  /** The event's own timestamp: absent without a `Timestamp` header,
      otherwise that header read as epoch seconds by `parseEpoch`. */
  function Timestamp(e: Event, parseEpoch: string -> Seconds): (t: Option<Seconds>)
    ensures t.None? <==> "Timestamp" !in e.headers
    ensures t.Some? ==> t.value == parseEpoch(e.headers["Timestamp"])
  {
    if "Timestamp" in e.headers then Some(parseEpoch(e.headers["Timestamp"])) else None
  }

  /** The best known time: the timestamp when there is one, the receipt
      time otherwise. */
  function BestTime(e: Event, parseEpoch: string -> Seconds): (t: Seconds)
    ensures "Timestamp" in e.headers ==> t == parseEpoch(e.headers["Timestamp"])
    ensures "Timestamp" !in e.headers ==> t == e.receiptTime
  {
    Timestamp(e, parseEpoch).GetOr(e.receiptTime)
  }

  /** An assigned `Timestamp` header is stored verbatim, so it becomes the
      event's timestamp and best time whatever the event is called. */
  lemma AssignedTimestampIsBestTime(e: Event, value: string, parseEpoch: string -> Seconds)
    ensures Timestamp(SetHeader(e, "Timestamp", value), parseEpoch) == Some(parseEpoch(value))
    ensures BestTime(SetHeader(e, "Timestamp", value), parseEpoch) == parseEpoch(value)
  {
  }

  /** Assigning any other header changes neither time. */
  lemma OtherHeaderKeepsTimes(e: Event, key: string, value: string, parseEpoch: string -> Seconds)
    requires key != "Timestamp"
    ensures Timestamp(SetHeader(e, key, value), parseEpoch) == Timestamp(e, parseEpoch)
    ensures BestTime(SetHeader(e, key, value), parseEpoch) == BestTime(e, parseEpoch)
  {
  }

  /** Equal events have the same timestamp, and the same best time when
      they carry a timestamp; without one, their best times are their
      (possibly different) receipt times. */
  lemma SameEventsShareTimestamp(a: Event, b: Event, parseEpoch: string -> Seconds)
    requires Same(a, b)
    ensures Timestamp(a, parseEpoch) == Timestamp(b, parseEpoch)
    ensures "Timestamp" in a.headers ==> BestTime(a, parseEpoch) == BestTime(b, parseEpoch)
    ensures "Timestamp" !in a.headers ==> BestTime(b, parseEpoch) == b.receiptTime
  {
  }
}
