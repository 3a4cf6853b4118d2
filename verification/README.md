# Event value type of the ruby_ami manager-protocol client

This project models, in Dafny, the inbound **Event** of the ruby_ami client for
the Asterisk Manager Interface: a named notification carrying a set of header
fields and the time the client received it. Three pieces of behaviour are
modelled and proved:

- **VarSet value decoding.** Assigning the `Value` header of a `VarSet` event
  runs the value through one left-to-right, non-overlapping substitution pass
  over an eleven-entry table (`\a \b \f \n \r \t \v \\ \' \" \?`, each to its
  single character). A backslash followed by anything else is kept.
  `VarSetEncoding.Decode` is the pass as a recursive function and
  `VarSetEncoding.DecodeScan` is the same pass as a scanning loop, proved equal.
  Its partner is `VarSetEncoding.Escape`, an encoding the decoder inverts:
  it writes each of the eleven table characters as its escape. The round trip
  `Decode(Escape(t)) == t` is proved for every value. The decoder is also characterised by
  `DecodeFixedIff`: a value decodes to itself exactly when it has no
  backslash-plus-table-letter pair.
- **Header assignment.** `Events.SetHeader` is `event[key] = value`. The key,
  name and receipt time are kept and no other header changes. The value is
  decoded exactly when the event is named `VarSet` and the key is `Value`.
  `Events.AssignAll` assigns a list of headers in order, and the last
  assignment to a key wins.
- **Equality and time.** `Events.Same` compares names and headers and ignores
  the receipt time. `Events.Timestamp` is absent exactly when there is no
  `Timestamp` header. `Events.BestTime` is the timestamp when present,
  otherwise the receipt time.

Files: `wrappers.dfy` (Option), `varset_encoding.dfy` (the decoder),
`event.dfy` (the Event type), `event_examples.dfy` (the repository's own
examples, stated about the model).

`Events.Timestamp` only checks that a `Timestamp` header is present
(lib/ruby_ami/event.rb:33). Whether its text is a valid timestamp plays no
part.

## Model

| member | source | states |
|---|---|---|
| VarSetEncoding.PatternMatchesTable | lib/ruby_ami/event.rb:8-21 | the pattern's character class matches exactly the eleven keys of the table, so every match has a replacement, and each letter is replaced by the table's entry for it |
| VarSetEncoding.Decode | lib/ruby_ami/event.rb:53-55 | each table match turns two characters into one, so the decoded value is no longer than the raw one and at least half as long |
| VarSetEncoding.DecodeScan | lib/ruby_ami/event.rb:53-55 | the gsub scanning loop (replace a match and skip two, or copy one character) computes exactly the decoded value |
| VarSetEncoding.DecodePlainPrefix | lib/ruby_ami/event.rb:54 | a backslash-free prefix passes through unchanged and the rest is decoded independently |
| VarSetEncoding.DecodeWithoutBackslash | lib/ruby_ami/event.rb:8 | a value containing no backslash decodes to itself |
| VarSetEncoding.NoEscapeIsFixed | lib/ruby_ami/event.rb:8 | a value with no backslash-plus-table-letter pair decodes to itself |
| VarSetEncoding.EscapeShrinks | lib/ruby_ami/event.rb:8-21 | a value with such a pair anywhere decodes to something strictly shorter, whichever way the left-to-right scan pairs its backslashes |
| VarSetEncoding.DecodeFixedIff | lib/ruby_ami/event.rb:8-21 | decoding leaves a value unchanged if and only if it has no such pair, and if and only if its length is unchanged |
| VarSetEncoding.DecodeBackslashRun | lib/ruby_ami/event.rb:54 | the non-overlapping scan decodes a run of 2n backslashes to n backslashes and decodes what follows on its own |
| VarSetEncoding.EscapeCharDecodes | lib/ruby_ami/event.rb:9-21 | each of the eleven table characters, written as its escape, and every other character, written as is, decodes back to that character at the point the left-to-right scan reaches it, whatever follows |
| VarSetEncoding.DecodeEscapeRoundTrip | lib/ruby_ami/event.rb:9-21 | decoding inverts, for every value, the encoding that escapes all eleven table characters |
| Events.ParseRawValue | lib/ruby_ami/event.rb:48-51 | the stored value is the decoded value for `VarSet`/`Value` and the raw value otherwise; it is never longer than the raw value |
| Events.SetHeader | lib/ruby_ami/event.rb:44-46 | assignment keeps the name, the receipt time and every other header, and stores under the given key either the raw value or, for `VarSet`/`Value` only, its decoded form |
| Events.VerbatimIffNotVarSetValue | lib/ruby_ami/event.rb:57-59 | every value is stored verbatim if and only if the event is not named `VarSet` or the key is not `Value` |
| Events.SetHeaderLastWins | lib/ruby_ami/event.rb:44-46 | of two assignments to one key the later wins |
| Events.SetHeaderCommutes | lib/ruby_ami/event.rb:44-46 | assignments to different keys can be made in either order |
| Events.AssignAll | spec/ruby_ami/event_spec.rb:127-131 | assigning a list of headers in order keeps name and receipt time and adds exactly the assigned keys |
| Events.AssignAllLastWins | spec/ruby_ami/event_spec.rb:127-131 | after the assignments a key holds the stored form of the raw value it was last assigned |
| Events.AssignAllUntouched | spec/ruby_ami/event_spec.rb:127-131 | a key that is not assigned keeps its earlier value |
| Events.Same | spec/ruby_ami/event_spec.rb:49-108 | two events are equal if and only if they are identical once receipt times are ignored |
| Events.SameIgnoresReceiptTime | spec/ruby_ami/event_spec.rb:49-68 | the same event received at another time is equal to it |
| Events.DifferenceBreaksSame | spec/ruby_ami/event_spec.rb:70-108 | a different name, or one header with a different value, makes two events unequal |
| Events.SetHeaderPreservesSame | lib/ruby_ami/event.rb:44-59 | assigning the same header to equal events gives equal events, since decoding depends only on the shared name |
| Events.Timestamp | lib/ruby_ami/event.rb:32-35 | the timestamp is absent exactly when there is no `Timestamp` header, and otherwise is that header read as epoch seconds |
| Events.BestTime | lib/ruby_ami/event.rb:38-40 | the best time is the `Timestamp` header's time when it is present, and otherwise the receipt time |
| Events.AssignedTimestampIsBestTime | lib/ruby_ami/event.rb:32-46 | an assigned `Timestamp` header is stored verbatim and becomes the timestamp and the best time |
| Events.OtherHeaderKeepsTimes | lib/ruby_ami/event.rb:32-46 | assigning any other header changes neither the timestamp nor the best time |
| Events.SameEventsShareTimestamp | lib/ruby_ami/event.rb:32-40 | equal events have equal timestamps, and equal best times when they carry one |
| EventExamples.StoredValue | spec/ruby_ami/event_spec.rb:127-131 | after assigning `Channel` and then `Value`, the stored `Value` is decoded for a `VarSet` event and raw for any other name |
| EventExamples.EscapeAround | spec/ruby_ami/event_spec.rb:153-164 | an escape on both sides of backslash-free text decodes on both sides |
| EventExamples.EscapeRowsDecode | spec/ruby_ami/event_spec.rb:153-164 | each of the eleven ` Que ` rows is stored as its decoded value, with the control characters given as code points U+0007, U+0008, U+000C, U+000A, U+000D, U+0009, U+000B |
| EventExamples.EachEscapeDecodes | spec/ruby_ami/event_spec.rb:153-164 | each of the eleven escapes written around ` Que ` decodes to its character on both sides |
| EventExamples.AdjacentEscapesDecode | spec/ruby_ami/event_spec.rb:168 | `\a\b\"\?` decodes to bell, backspace, double quote, question mark |
| EventExamples.UnrecognisedEscapeKept | spec/ruby_ami/event_spec.rb:165 | `\ ? Que \ ?` is stored unchanged |
| EventExamples.BackslashRunsDecodePairwise | spec/ruby_ami/event_spec.rb:166-167 | six backslashes decode to three; five backslashes and `?` decode to two backslashes and `?` |
| EventExamples.OtherNameOrKeyStoresVerbatim | spec/ruby_ami/event_spec.rb:133-148 | the same raw value under a `Hangup` event, or under key `Uniqueid` of a `VarSet` event, is stored unchanged |
| EventExamples.EqualityExamples | spec/ruby_ami/event_spec.rb:49-108 | the three equality examples: same name and headers equal at any receipt times, a different name or `Cause` unequal |
| EventExamples.TimeExamples | spec/ruby_ami/event_spec.rb:19-46 | with no `Timestamp` the timestamp is absent and the best time is the receipt time; with one, the best time is its value |

## Left out

- Reading the `Timestamp` header as a calendar time (`DateTime.strptime` with `%s`, lib/ruby_ami/event.rb:34) is a library call. It is the parameter `parseEpoch: string -> Seconds`. The treatment of the fractional part, and the exception a malformed header raises, are not modelled.
- The wall clock `DateTime.now` (lib/ruby_ami/event.rb:26) is not modelled. The receipt time is a field of the event, supplied by whoever builds it.
- Headers given to the constructor (lib/ruby_ami/event.rb:25-29) go through the superclass `Response`, which is not part of this model. Whether they are decoded is not claimed. The `Event` datatype constructor stores them as given, and decoding is modelled only for assignment after construction.
- `Response` itself is not part of this model. Its header store is modelled as a map update, and its equality as `Events.Same`. Header insertion order is dropped because equality does not depend on it.
- Only string values are modelled. Assigning `nil` as a header value is not.
- `inspect_attributes` (lib/ruby_ami/event.rb:61-63) only formats debug output.
- `VarSetEncoding.Escape` is not in the repository. It is an encoding the decoder inverts, written to state the round trip, and makes no claim about how the peer escapes values.
- Values are modelled as sequences of Unicode characters. A Ruby string whose bytes are invalid in its encoding, and the `ArgumentError` that `gsub` (lib/ruby_ami/event.rb:54) raises on it, are not modelled.
- lib/ruby_ami.rb is not modelled. It only registers autoloads, requires gems and aliases `Logger#trace`.
- The connection engine, lexer, actions, responses and client are not part of this model. They lie outside lib/ruby_ami/event.rb, whose Event type is the part modelled. Of these, only the connection engine and the client are built on sockets and actors.
