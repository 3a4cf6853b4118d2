/** The escape grammar of the `Value` header of a `VarSet` event.

    A channel variable's value arrives with special characters escaped by a
    backslash. The client undoes this with one left-to-right substitution
    pass over a fixed table of eleven two-character sequences: a backslash
    followed by one of `a b f n r t v \ ' " ?` becomes the single character
    it names. Matches never overlap, and a backslash followed by any other
    character is left as it is. */
module VarSetEncoding {

  /** Control characters with no Dafny literal escape of their own. */
  const BEL: char := '\U{0007}'
  const BS: char := '\U{0008}'
  const VT: char := '\U{000B}'
  const FF: char := '\U{000C}'

  /** The substitution table, as written: each two-character escape and
      the single character that replaces it. */
  const EncodingMap: map<string, char> := map[
    "\\a" := BEL, "\\b" := BS, "\\f" := FF, "\\n" := '\n', "\\r" := '\r',
    "\\t" := '\t', "\\v" := VT, "\\\\" := '\\', "\\'" := '\'', "\\\"" := '"',
    "\\?" := '?']

  /** The characters that may follow a backslash in a recognised escape:
      the character class of the table's pattern. */
  predicate IsEscapeLetter(c: char) {
    || c == 'a' || c == 'b' || c == 'f' || c == 'n' || c == 'r' || c == 't' || c == 'v'
    || c == '\\' || c == '\'' || c == '"' || c == '?'
  }


  /** The character a recognised escape `\c` stands for: the table's value
      for key `\c`. */
  function Unescape(c: char): char
    requires IsEscapeLetter(c)
  {
    match c
    case 'a' => BEL
    case 'b' => BS
    case 'f' => FF
    case 'n' => '\n'
    case 'r' => '\r'
    case 't' => '\t'
    case 'v' => VT
    case _ => c // backslash, single quote, double quote and question mark stand for themselves
  }

  /** The pattern's character class matches exactly the keys of the table,
      so every match has a replacement, and the replacement is the table's
      entry for it. */
  lemma PatternMatchesTable(c: char)
    ensures IsEscapeLetter(c) <==> ['\\', c] in EncodingMap
    ensures IsEscapeLetter(c) ==> Unescape(c) == EncodingMap[['\\', c]]
  {
  }

  /** The decoded value: every recognised escape, found scanning left to
      right without overlap, replaced by its character. Each replacement
      turns two characters into one, so the result is never longer than
      the input and never shorter than half of it. */
  function Decode(s: string): (r: string)
    ensures |r| <= |s| <= 2 * |r|
    decreases |s|
  {
    if |s| == 0 then []
    else if |s| >= 2 && s[0] == '\\' && IsEscapeLetter(s[1]) then
      [Unescape(s[1])] + Decode(s[2..])
    else
      [s[0]] + Decode(s[1..])
  }

  /** The same substitution pass, written as the scanning loop a
      `gsub` performs: at each position either a recognised escape is
      consumed and replaced, or one character is copied. */
  method DecodeScan(s: string) returns (r: string)
    ensures r == Decode(s)
  {
    r := [];
    var i := 0;
    while i < |s|
      invariant 0 <= i <= |s|
      invariant r + Decode(s[i..]) == Decode(s)
      decreases |s| - i
    {
      if i + 1 < |s| && s[i] == '\\' && IsEscapeLetter(s[i + 1]) {
        DecodeReplaceStep(s, i);
        var u := Unescape(s[i + 1]);
        assert (r + [u]) + Decode(s[i + 2..]) == r + ([u] + Decode(s[i + 2..]));
        r := r + [u];
        i := i + 2;
      } else {
        DecodeCopyStep(s, i);
        assert (r + [s[i]]) + Decode(s[i + 1..]) == r + ([s[i]] + Decode(s[i + 1..]));
        r := r + [s[i]];
        i := i + 1;
      }
    }
    assert s[i..] == [];
  }

  /** One step of the scan at position `i` that replaces an escape. */
  lemma DecodeReplaceStep(s: string, i: nat)
    requires i + 1 < |s| && s[i] == '\\' && IsEscapeLetter(s[i + 1])
    ensures Decode(s[i..]) == [Unescape(s[i + 1])] + Decode(s[i + 2..])
  {
    assert s[i..][2..] == s[i + 2..];
  }

  /** One step of the scan at position `i` that copies a character. */
  lemma DecodeCopyStep(s: string, i: nat)
    requires i < |s| && !(i + 1 < |s| && s[i] == '\\' && IsEscapeLetter(s[i + 1]))
    ensures Decode(s[i..]) == [s[i]] + Decode(s[i + 1..])
  {
    assert s[i..][1..] == s[i + 1..];
  }

  /** A character other than a backslash is copied and decoding goes on
      with the next one. */
  lemma DecodePlainHead(c: char, rest: string)
    requires c != '\\'
    ensures Decode([c] + rest) == [c] + Decode(rest)
  {
    assert ([c] + rest)[1..] == rest;
  }

  /** A recognised escape at the front decodes to its single character. */
  lemma DecodeEscapeHead(c: char, rest: string)
    requires IsEscapeLetter(c)
    ensures Decode(['\\', c] + rest) == [Unescape(c)] + Decode(rest)
  {
    assert (['\\', c] + rest)[2..] == rest;
  }

  /** A backslash followed by a character outside the table is kept, and
      the character after it is scanned afresh. */
  lemma DecodeUnrecognisedHead(c: char, rest: string)
    requires !IsEscapeLetter(c)
    ensures Decode(['\\', c] + rest) == ['\\'] + Decode([c] + rest)
  {
    assert (['\\', c] + rest)[1..] == [c] + rest;
  }

  /** A prefix without backslashes is copied as is, and the rest is decoded
      on its own. */
  lemma {:induction false} DecodePlainPrefix(p: string, rest: string)
    requires '\\' !in p
    ensures Decode(p + rest) == p + Decode(rest)
    decreases |p|
  {
    if |p| > 0 {
      assert p + rest == [p[0]] + (p[1..] + rest);
      assert p[0] in p;
      DecodePlainHead(p[0], p[1..] + rest);
      assert forall k :: 0 <= k < |p[1..]| ==> p[1..][k] == p[k + 1];
      DecodePlainPrefix(p[1..], rest);
      assert [p[0]] + p[1..] == p;
    } else {
      assert p + rest == rest;
    }
  }

  /** `s` holds a backslash directly followed by a table letter somewhere. */
  predicate HasEscape(s: string) {
    exists i :: 0 <= i < |s| - 1 && s[i] == '\\' && IsEscapeLetter(s[i + 1])
  }

  lemma {:induction false} NoEscapeIsFixed(s: string)
    requires !HasEscape(s)
    ensures Decode(s) == s
    decreases |s|
  {
    if |s| > 0 {
      assert !(|s| >= 2 && s[0] == '\\' && IsEscapeLetter(s[1]));
      assert !HasEscape(s[1..]) by {
        forall i | 0 <= i < |s[1..]| - 1
          ensures !(s[1..][i] == '\\' && IsEscapeLetter(s[1..][i + 1]))
        {
          assert s[1..][i] == s[i + 1] && s[1..][i + 1] == s[i + 2];
        }
      }
      NoEscapeIsFixed(s[1..]);
    }
  }

  lemma {:induction false} EscapeShrinks(s: string)
    requires HasEscape(s)
    ensures |Decode(s)| < |s|
    decreases |s|
  {
    var i :| 0 <= i < |s| - 1 && s[i] == '\\' && IsEscapeLetter(s[i + 1]);
    if !(s[0] == '\\' && IsEscapeLetter(s[1])) {
      assert i > 0;
      assert s[1..][i - 1] == s[i] && s[1..][i] == s[i + 1];
      assert HasEscape(s[1..]);
      EscapeShrinks(s[1..]);
    }
  }

  /** A value with no backslash at all is stored exactly as received. */
  lemma {:induction false} DecodeWithoutBackslash(s: string)
    requires '\\' !in s
    ensures Decode(s) == s
  {
    assert !HasEscape(s) by {
      forall i | 0 <= i < |s| - 1
        ensures s[i] != '\\'
      {
        assert s[i] in s;
      }
    }
    NoEscapeIsFixed(s);
  }

  /** Decoding leaves a value unchanged exactly when it contains no
      backslash followed by a table letter; any such pair, wherever the
      scan meets it, makes the result strictly shorter. */
  lemma DecodeFixedIff(s: string)
    ensures Decode(s) == s <==> !HasEscape(s)
    ensures Decode(s) == s <==> |Decode(s)| == |s|
  {
    if HasEscape(s) {
      EscapeShrinks(s);
    } else {
      NoEscapeIsFixed(s);
    }
  }

  /** `n` backslashes in a row. */
  function Backslashes(n: nat): string {
    seq(n, _ => '\\')
  }

  /** An even run of backslashes decodes pairwise, to half as many, and
      whatever follows is decoded independently of the run. */
  lemma {:induction false} DecodeBackslashRun(n: nat, t: string)
    ensures Decode(Backslashes(2 * n) + t) == Backslashes(n) + Decode(t)
  {
    if n > 0 {
      calc {
        Decode(Backslashes(2 * n) + t);
        { assert Backslashes(2 * n) + t == ['\\', '\\'] + (Backslashes(2 * (n - 1)) + t); }
        Decode(['\\', '\\'] + (Backslashes(2 * (n - 1)) + t));
        { DecodeEscapeHead('\\', Backslashes(2 * (n - 1)) + t); }
        ['\\'] + Decode(Backslashes(2 * (n - 1)) + t);
        { DecodeBackslashRun(n - 1, t); }
        ['\\'] + (Backslashes(n - 1) + Decode(t));
        { assert ['\\'] + Backslashes(n - 1) == Backslashes(n); }
        Backslashes(n) + Decode(t);
      }
    } else {
      assert Backslashes(0) + t == t;
    }
  }

  /** An escape for one character that the decoder inverts: each of the
      eleven characters the table produces is written as its escape, every
      other character as is. */
  function EscapeChar(c: char): (s: string)
    ensures |s| == 1 || |s| == 2
  {
    match c
    case '\U{0007}' => "\\a"
    case '\U{0008}' => "\\b"
    case '\U{000C}' => "\\f"
    case '\n' => "\\n"
    case '\r' => "\\r"
    case '\t' => "\\t"
    case '\U{000B}' => "\\v"
    case '\\' => "\\\\"
    case '\'' => "\\'"
    case '"' => "\\\""
    case '?' => "\\?"
    case _ => [c]
  }

  /** Each character's escape decodes back to that character, and the
      scan then carries on with what follows it. */
  lemma EscapeCharDecodes(c: char, rest: string)
    ensures Decode(EscapeChar(c) + rest) == [c] + Decode(rest)
  {
    if |EscapeChar(c)| == 2 {
      var l := EscapeChar(c)[1];
      assert EscapeChar(c) == ['\\', l] && IsEscapeLetter(l) && Unescape(l) == c;
      DecodeEscapeHead(l, rest);
    } else {
      assert EscapeChar(c) == [c] && c != '\\';
      DecodePlainHead(c, rest);
    }
  }

  /** An encoding of whole values that the decoder inverts: every table
      character escaped. */
  function Escape(t: string): (s: string)
    ensures |t| <= |s| <= 2 * |t|
  {
    if |t| == 0 then [] else EscapeChar(t[0]) + Escape(t[1..])
  }

  /** Decoding inverts escaping: an escaped value decodes to the original,
      whatever characters it holds. */
  lemma {:induction false} DecodeEscapeRoundTrip(t: string)
    ensures Decode(Escape(t)) == t
  {
    if |t| > 0 {
      var rest := Escape(t[1..]);
      assert Escape(t) == EscapeChar(t[0]) + rest;
      EscapeCharDecodes(t[0], rest);
      DecodeEscapeRoundTrip(t[1..]);
      assert [t[0]] + t[1..] == t;
    }
  }
}
