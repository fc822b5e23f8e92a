/**
 * The 128-bit identifier value type: its byte layout, canonical hex text,
 * and the JSON and database adapters built on that text.
 *
 * Go's pointer-receiver methods `UnmarshalJSON` and `Scan` overwrite `*id`
 * only on success; they are modelled as functions from the receiver's old
 * value and the input to an `Outcome` holding the receiver's new value and
 * the returned error.
 */
module Identifier {
  import opened Wrappers
  import opened Ints
  import Hex
  import BigEndian

  /** The size of an identifier, in bytes. */
  const ByteSize: nat := 16

  /** Go's `[ByteSize]byte`. */
  type ID = s: seq<byte> | |s| == ByteSize witness seq(16, i => 0)

  /** The all-zero identifier, the "no identifier" sentinel. */
  const Empty: ID := [0, 0, 0, 0, 0, 0, 0, 0, 0, 0, 0, 0, 0, 0, 0, 0]

  /** The errors the operations return; the Go message text is not modelled. */
  datatype Error =
    | DecodeError                 // the text is not well-formed hex
    | LengthError(byteLength: nat) // well-formed hex of the wrong number of bytes
    | TypeMismatch                // a database value that is neither null nor a string

  /** An identifier together with the error (or `None`) returned beside it. */
  datatype Outcome = Outcome(id: ID, err: Option<Error>)

  /** The value a database driver hands to `Scan`. */
  datatype DbValue = Null | Text(text: string) | Other

  // ---------------------------------------------------------------------------
  // Generation

  /**
   * `New`, with the clock reading (`time.Now().UnixNano()`) and the eight
   * bytes `rand.Read` leaves in the second half passed in.
   */
  function New(clock: int64, random: seq<byte>): (id: ID)
    requires |random| == ByteSize / 2
    ensures id[ByteSize / 2..] == random
    ensures BigEndian.Uint64(id[..ByteSize / 2]) == ToUint64(clock)
  {
    var high := BigEndian.PutUint64(ToUint64(clock));
    assert (high + random)[..ByteSize / 2] == high;
    high + random
  }

  /** The clock reading stored in the first half of an identifier. */
  function Timestamp(id: ID): int64 {
    ToInt64(BigEndian.Uint64(id[..ByteSize / 2]))
  }

  /** The clock reading and the random bytes can be read back from `New`'s result. */
  lemma NewLayout(clock: int64, random: seq<byte>)
    requires |random| == ByteSize / 2
    ensures Timestamp(New(clock, random)) == clock
    ensures New(clock, random)[ByteSize / 2..] == random
  {
  }

  /** Different clock readings or different random bytes give different identifiers. */
  lemma NewInjective(clock1: int64, random1: seq<byte>, clock2: int64, random2: seq<byte>)
    requires |random1| == ByteSize / 2 && |random2| == ByteSize / 2
    ensures New(clock1, random1) == New(clock2, random2) <==> clock1 == clock2 && random1 == random2
  {
    if New(clock1, random1) == New(clock2, random2) {
      NewLayout(clock1, random1);
      NewLayout(clock2, random2);
    }
  }

  /** A clock reading other than the epoch itself always yields a valid identifier. */
  lemma NewIsValid(clock: int64, random: seq<byte>)
    requires |random| == ByteSize / 2
    requires clock != 0
    ensures IsValid(New(clock, random))
  {
    var id := New(clock, random);
    if id == Empty {
      BigEndian.ZerosDenoteZero(id[..ByteSize / 2]);
      assert false;
    }
  }

  // ---------------------------------------------------------------------------
  // Canonical text

  /** `String`: the identifier as 32 lower-case hex digits. */
  function String(id: ID): (s: string)
    ensures |s| == 2 * ByteSize
    ensures forall i :: 0 <= i < |s| ==> Hex.IsLowerHexChar(s[i])
    ensures forall i :: 0 <= i < ByteSize ==> Hex.Spells(s[2 * i], s[2 * i + 1], id[i])
  {
    Hex.Encode(id)
  }

  /** `Parse`: the identifier spelled by `text`, or `Empty` and an error. */
  function Parse(text: string): (r: Outcome)
    ensures r.err.None? <==> |text| == 2 * ByteSize && Hex.IsHex(text)
    ensures r.err.None? ==> forall i :: 0 <= i < ByteSize ==> Hex.Spells(text[2 * i], text[2 * i + 1], r.id[i])
    ensures r.err.Some? ==> r.id == Empty
    ensures r.err == Some(DecodeError) <==> !Hex.IsHex(text)
    ensures r.err == Some(LengthError(|text| / 2)) <==> Hex.IsHex(text) && |text| != 2 * ByteSize
  {
    match Hex.Decode(text)
    case None => Outcome(Empty, Some(DecodeError))
    case Some(raw) =>
      if |raw| != ByteSize then Outcome(Empty, Some(LengthError(|raw|)))
      else Outcome(raw, None)
  }

  /** Every identifier survives `String` then `Parse`. */
  lemma ParseString(id: ID)
    ensures Parse(String(id)) == Outcome(id, None)
  {
    Hex.DecodeEncode(id);
  }

  /** A successful `Parse` returns the identifier whose `String` is the input in lower case. */
  lemma StringParse(text: string)
    requires Parse(text).err.None?
    ensures String(Parse(text).id) == Hex.LowerAll(text)
  {
    Hex.EncodeDecode(text);
  }

  /** The only lower-case text that parses to `id` is its canonical text. */
  lemma CanonicalText(text: string, id: ID)
    requires forall i :: 0 <= i < |text| ==> Hex.IsLowerHexChar(text[i])
    requires Parse(text) == Outcome(id, None)
    ensures text == String(id)
  {
    StringParse(text);
    assert Hex.LowerAll(text) == text;
  }

  /** A non-hex character fails with `DecodeError` and yields `Empty`. */
  lemma ParseRejectsInvalidHex()
    ensures Parse(seq(31, i => 'F') + "S") == Outcome(Empty, Some(DecodeError))
  {
    var text := seq(31, i => 'F') + "S";
    assert !Hex.IsHexChar(text[31]);
  }

  /** Well-formed hex of 17 bytes fails with `LengthError` and yields `Empty`. */
  lemma ParseRejectsWrongByteSize()
    ensures Parse(seq(34, i => 'F')) == Outcome(Empty, Some(LengthError(17)))
  {
  }

  // ---------------------------------------------------------------------------
  // JSON adapters

  /** `strings.ReplaceAll(raw, "\"", "")`: `raw` with every double quote removed. */
  function StripQuotes(raw: string): (s: string)
    ensures forall i :: 0 <= i < |s| ==> s[i] != '"'
    ensures forall c :: c != '"' ==> multiset(s)[c] == multiset(raw)[c]
    ensures (forall i :: 0 <= i < |raw| ==> raw[i] != '"') ==> s == raw
  {
    if |raw| == 0 then []
    else
      assert raw == [raw[0]] + raw[1..];
      (if raw[0] == '"' then [] else [raw[0]]) + StripQuotes(raw[1..])
  }

  /** Removing quotes from a concatenation removes them from each part. */
  lemma {:induction false} StripQuotesAppend(a: string, b: string)
    ensures StripQuotes(a + b) == StripQuotes(a) + StripQuotes(b)
  {
    if |a| > 0 {
      StripQuotesAppend(a[1..], b);
      assert (a + b)[0] == a[0];
      assert (a + b)[1..] == a[1..] + b;
      var head := if a[0] == '"' then [] else [a[0]];
      assert StripQuotes(a) == head + StripQuotes(a[1..]);
      assert StripQuotes(a + b) == head + StripQuotes(a[1..] + b);
    } else {
      assert a + b == b;
    }
  }

  /** `MarshalJSON`: the canonical text as a JSON string literal; the returned error is always nil. */
  function MarshalJSON(id: ID): (raw: string)
    ensures |raw| == 2 * ByteSize + 2
    ensures raw[0] == '"' && raw[|raw| - 1] == '"'
    ensures StripQuotes(raw) == String(id)
  {
    var text := String(id);
    StripQuotesAppend("\"", text);
    StripQuotesAppend("\"" + text, "\"");
    "\"" + text + "\""
  }

  /**
   * `UnmarshalJSON`: parse `raw` with every double quote removed, wherever
   * it stands; on failure the receiver keeps its old value.
   */
  function UnmarshalJSON(receiver: ID, raw: string): (r: Outcome)
    ensures r.err.None? <==> |StripQuotes(raw)| == 2 * ByteSize && Hex.IsHex(StripQuotes(raw))
    ensures r.err.None? ==> String(r.id) == Hex.LowerAll(StripQuotes(raw))
    ensures r.err.Some? ==> r.id == receiver && r.err == Parse(StripQuotes(raw)).err
  {
    var parsed := Parse(StripQuotes(raw));
    if parsed.err.Some? then Outcome(receiver, parsed.err)
    else
      StringParse(StripQuotes(raw));
      Outcome(parsed.id, None)
  }

  /** Any input whose quote-free text is the canonical text of `id` unmarshals to `id`. */
  lemma UnmarshalIgnoresQuotes(receiver: ID, raw: string, id: ID)
    requires StripQuotes(raw) == String(id)
    ensures UnmarshalJSON(receiver, raw) == Outcome(id, None)
  {
    ParseString(id);
  }

  /** `MarshalJSON` then `UnmarshalJSON` sets the receiver to the original identifier. */
  lemma JsonRoundTrip(receiver: ID, id: ID)
    ensures UnmarshalJSON(receiver, MarshalJSON(id)) == Outcome(id, None)
  {
    UnmarshalIgnoresQuotes(receiver, MarshalJSON(id), id);
  }

  /** Unbalanced quotes around bad hex fail, and the receiver keeps its value. */
  lemma UnmarshalRejectsInvalidHex(receiver: ID)
    ensures UnmarshalJSON(receiver, "\"FFFFFH") == Outcome(receiver, Some(DecodeError))
  {
    StripQuotesAppend("\"", "FFFFFH");
    assert StripQuotes("\"FFFFFH") == "FFFFFH" by {
      assert "\"FFFFFH" == "\"" + "FFFFFH";
    }
  }

  /** The JSON literal `null` is not an identifier; the receiver keeps its value. */
  lemma UnmarshalRejectsNull(receiver: ID)
    ensures UnmarshalJSON(receiver, "null") == Outcome(receiver, Some(DecodeError))
  {
    assert StripQuotes("null") == "null";
    assert !Hex.IsHexChar("null"[0]);
  }

  // ---------------------------------------------------------------------------
  // Database adapters

  /** `Value`: the canonical text, as a text database value; the returned error is always nil. */
  function Value(id: ID): (v: DbValue)
    ensures v.Text? && Parse(v.text) == Outcome(id, None)
    ensures v.Text? && forall i :: 0 <= i < |v.text| ==> Hex.IsLowerHexChar(v.text[i])
  {
    ParseString(id);
    Text(String(id))
  }

  /** `Scan`: null resets to `Empty`, text is parsed, anything else is refused. */
  function Scan(receiver: ID, src: DbValue): (r: Outcome)
    ensures src.Null? ==> r == Outcome(Empty, None)
    ensures src.Other? ==> r == Outcome(receiver, Some(TypeMismatch))
    ensures src.Text? ==> (r.err.None? <==> |src.text| == 2 * ByteSize && Hex.IsHex(src.text))
    ensures src.Text? && r.err.None? ==> String(r.id) == Hex.LowerAll(src.text)
    ensures src.Text? && r.err.Some? ==> r.id == receiver && r.err == Parse(src.text).err
  {
    match src
    case Null => Outcome(Empty, None)
    case Other => Outcome(receiver, Some(TypeMismatch))
    case Text(text) =>
      var parsed := Parse(text);
      if parsed.err.Some? then Outcome(receiver, parsed.err)
      else
        StringParse(text);
        Outcome(parsed.id, None)
  }

  /** Storing an identifier with `Value` and reading it back with `Scan` gives it back. */
  lemma DbRoundTrip(receiver: ID, id: ID)
    ensures Scan(receiver, Value(id)) == Outcome(id, None)
  {
  }

  /** A text value that is not an identifier fails, and the receiver keeps its value. */
  lemma ScanRejectsText(receiver: ID)
    ensures Scan(receiver, Text("Hello, World!")) == Outcome(receiver, Some(DecodeError))
  {
    assert !Hex.IsHexChar("Hello, World!"[0]);
  }

  // ---------------------------------------------------------------------------
  // Validity

  /** `IsValid`: some byte of the identifier is non-zero. */
  function IsValid(id: ID): (valid: bool)
    ensures valid <==> exists i :: 0 <= i < ByteSize && id[i] != 0
  {
    id != Empty
  }
}
