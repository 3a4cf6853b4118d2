/** The behaviour the repository's own examples describe, stated about the
    model: the decoding table, values left alone, and event equality. */
module EventExamples {
  import opened Wrappers
  import opened VarSetEncoding
  import opened Events

  /** The value stored for `Value` after building an event called `name`
      and assigning it a `Channel` header and then a `Value` header holding
      `raw`, as the examples do. */
  function StoredValue(name: string, raw: string, now: Seconds): (r: string)
    ensures name == "VarSet" ==> r == Decode(raw)
    ensures name != "VarSet" ==> r == raw
  {
    var e := AssignAll(Event(name, map[], now), [("Channel", "SIP/101-3f3f"), ("Value", raw)]);
    AssignAllLastWins(Event(name, map[], now), [("Channel", "SIP/101-3f3f"), ("Value", raw)], 1);
    e.headers["Value"]
  }

  /** An escape on either side of backslash-free text decodes on both
      sides. */
  lemma EscapeAround(c: char, mid: string)
    requires IsEscapeLetter(c) && '\\' !in mid
    ensures Decode(['\\', c] + mid + ['\\', c]) == [Unescape(c)] + mid + [Unescape(c)]
  {
    assert ['\\', c] + mid + ['\\', c] == ['\\', c] + (mid + ['\\', c]);
    DecodeEscapeHead(c, mid + ['\\', c]);
    DecodePlainPrefix(mid, ['\\', c]);
    DecodeEscapeHead(c, []);
    assert ['\\', c] + [] == ['\\', c];
  }

  /** Each of the eleven escapes, written on both sides of ` Que `, decodes
      to its single character on both sides. */
  lemma EachEscapeDecodes(c: char, now: Seconds)
    requires IsEscapeLetter(c)
    ensures StoredValue("VarSet", ['\\', c] + " Que " + ['\\', c], now) == [Unescape(c)] + " Que " + [Unescape(c)]
  {
    EscapeAround(c, " Que ");
  }

  /** One row of the decoding table: the escape of letter `c` on both
      sides of ` Que `. */
  lemma EscapeRow(c: char, raw: string, expected: string, now: Seconds)
    requires IsEscapeLetter(c)
    requires raw == ['\\', c] + " Que " + ['\\', c]
    requires expected == [Unescape(c)] + " Que " + [Unescape(c)]
    ensures StoredValue("VarSet", raw, now) == expected
  {
    EachEscapeDecodes(c, now);
  }

  /** The eleven rows of the decoding table: a raw value and the value
      stored for it, with decoded control characters written as code
      points. */
  const EscapeRows: seq<(char, string, string)> := [
    ('a', "\\a Que \\a", "\U{0007} Que \U{0007}"),
    ('b', "\\b Que \\b", "\U{0008} Que \U{0008}"),
    ('f', "\\f Que \\f", "\U{000C} Que \U{000C}"),
    ('n', "\\n Que \\n", "\U{000A} Que \U{000A}"),
    ('r', "\\r Que \\r", "\U{000D} Que \U{000D}"),
    ('t', "\\t Que \\t", "\U{0009} Que \U{0009}"),
    ('v', "\\v Que \\v", "\U{000B} Que \U{000B}"),
    ('\\', "\\\\ Que \\\\", "\\ Que \\"),
    ('\'', "\\' Que \\'", "' Que '"),
    ('"', "\\\" Que \\\"", "\" Que \""),
    ('?', "\\? Que \\?", "? Que ?")]

  /** Every row of the table: the raw value is stored as the expected
      decoded value. */
  lemma EscapeRowsDecode(now: Seconds)
    ensures forall k :: 0 <= k < |EscapeRows| ==> StoredValue("VarSet", EscapeRows[k].1, now) == EscapeRows[k].2
  {
    forall k | 0 <= k < |EscapeRows|
      ensures StoredValue("VarSet", EscapeRows[k].1, now) == EscapeRows[k].2
    {
      var row := EscapeRows[k];
      // One identical branch per row: each fixes `k` to a literal, so the
      // solver evaluates that row alone rather than all eleven at once.
      if k == 0 { EscapeRow(row.0, row.1, row.2, now); }
      else if k == 1 { EscapeRow(row.0, row.1, row.2, now); }
      else if k == 2 { EscapeRow(row.0, row.1, row.2, now); }
      else if k == 3 { EscapeRow(row.0, row.1, row.2, now); }
      else if k == 4 { EscapeRow(row.0, row.1, row.2, now); }
      else if k == 5 { EscapeRow(row.0, row.1, row.2, now); }
      else if k == 6 { EscapeRow(row.0, row.1, row.2, now); }
      else if k == 7 { EscapeRow(row.0, row.1, row.2, now); }
      else if k == 8 { EscapeRow(row.0, row.1, row.2, now); }
      else if k == 9 { EscapeRow(row.0, row.1, row.2, now); }
      else { EscapeRow(row.0, row.1, row.2, now); }
    }
  }

  /** Adjacent escapes each decode. */
  lemma AdjacentEscapesDecode(now: Seconds)
    ensures StoredValue("VarSet", "\\a\\b\\\"\\?", now) == [BEL, BS, '"', '?']
  {
    assert "\\a\\b\\\"\\?" == ['\\', 'a'] + (['\\', 'b'] + (['\\', '"'] + (['\\', '?'] + [])));
    DecodeEscapeHead('?', []);
    DecodeEscapeHead('"', ['\\', '?']);
    DecodeEscapeHead('b', ['\\', '"'] + ['\\', '?']);
    DecodeEscapeHead('a', ['\\', 'b'] + (['\\', '"'] + ['\\', '?']));
  }

  /** A backslash before a space is not an escape: the value is kept. */
  lemma UnrecognisedEscapeKept(now: Seconds)
    ensures StoredValue("VarSet", "\\ ? Que \\ ?", now) == "\\ ? Que \\ ?"
  {
    var raw := "\\ ? Que \\ ?";
    assert !HasEscape(raw) by {
      forall i | 0 <= i < |raw| - 1 && raw[i] == '\\'
        ensures !IsEscapeLetter(raw[i + 1])
      {
        assert i == 0 || i == 8;
      }
    }
    DecodeFixedIff(raw);
  }

  /** Six backslashes decode to three; five backslashes and a question mark
      decode to two backslashes and a question mark. */
  lemma BackslashRunsDecodePairwise(now: Seconds)
    ensures StoredValue("VarSet", "\\\\\\\\\\\\", now) == "\\\\\\"
    ensures StoredValue("VarSet", "\\\\\\\\\\?", now) == "\\\\?"
  {
    DecodeBackslashRun(3, "");
    assert Backslashes(6) + "" == "\\\\\\\\\\\\";
    DecodeBackslashRun(2, "\\?");
    assert Backslashes(4) + "\\?" == "\\\\\\\\\\?";
    DecodeEscapeHead('?', "");
  }

  /** The same raw value is stored unchanged under another event name or
      another key. */
  lemma OtherNameOrKeyStoresVerbatim(now: Seconds)
    ensures StoredValue("Hangup", "\\? Que \\?", now) == "\\? Que \\?"
    ensures SetHeader(Event("VarSet", map[], now), "Uniqueid", "\\? Que \\?").headers["Uniqueid"] == "\\? Que \\?"
  {
  }

  /** The `Hangup` events of the equality examples. */
  function Hangup(name: string, cause: string, now: Seconds): Event {
    Event(name, map["Channel" := "SIP/101-3f3f", "Uniqueid" := "1094154427.10", "Cause" := cause], now)
  }

  /** Equal names and headers make equal events even when received at
      different times; another name or another `Cause` does not. */
  lemma EqualityExamples(t1: Seconds, t2: Seconds)
    ensures Same(Hangup("Hangup", "0", t1), Hangup("Hangup", "0", t2))
    ensures !Same(Hangup("Hangup", "0", t1), Hangup("Foo", "0", t2))
    ensures !Same(Hangup("Hangup", "0", t1), Hangup("Hangup", "1", t2))
  {
    assert Hangup("Hangup", "0", t1).headers["Cause"] != Hangup("Hangup", "1", t2).headers["Cause"];
  }

  /** Without a `Timestamp` header the best time is the receipt time; with
      one it is the timestamp. */
  lemma TimeExamples(now: Seconds, parseEpoch: string -> Seconds)
    ensures Timestamp(Event("Hangup", map[], now), parseEpoch) == None
    ensures BestTime(Event("Hangup", map[], now), parseEpoch) == now
    ensures BestTime(Event("Hangup", map["Timestamp" := "1393368380.572575"], now), parseEpoch)
         == parseEpoch("1393368380.572575")
  {
  }
}
