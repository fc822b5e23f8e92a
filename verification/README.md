# ljpx/id — a verified model of the 128-bit identifier

The repository defines one Go value type, `ID`, a 16-byte identifier. Bytes
0–7 hold the creation time in nanoseconds (big-endian) and bytes 8–15 hold
random bytes. The canonical text form is 32 hex digits: Base16 (section 8 of
RFC 4648), in the lower case Go's encoder emits. Adapters carry that text through JSON
(`MarshalJSON` / `UnmarshalJSON`) and through `database/sql`
(`Value` / `Scan`). The all-zero `Empty` identifier is the only invalid one.

The model is split into five modules:

- `Wrappers` (`wrappers.dfy`): `Option`, whose `None` stands for Go's nil error.
- `Ints` (`ints.dfy`): Go's `byte`, `int64` and `uint64`. It also holds the
  `uint64(x)` conversion, a two's-complement reinterpretation.
- `Hex` (`hex.dfy`): Go's `hex.EncodeToString` and `hex.DecodeString`.
- `BigEndian` (`big_endian.dfy`): Go's `binary.BigEndian.PutUint64` and `Uint64`.
- `Identifier` (`identifier.dfy`): everything in `ID.go`.

An `ID` is a `seq<byte>` of length 16.
Go's pointer-receiver methods `UnmarshalJSON` and `Scan` assign `*id` only
on success. They are modelled as pure functions from the receiver's old value and
the input to `Outcome(id, err)`, where `id` is the receiver's value afterwards.
`Parse` returns the same pair, as Go's `(ID, error)`. The errors are
`DecodeError` (not well-formed hex), `LengthError(n)` (well-formed hex of
`n != 16` bytes) and `TypeMismatch` (a database value that is not a string).

`UnmarshalJSON` and `Scan` return the error before assigning `*id`
(ID.go:76-78, ID.go:101-104). So on failure the receiver keeps its old value
and is not reset to `Empty`. `UnmarshalJSON` removes every `"` character,
not only an outer pair (ID.go:73); `UnmarshalIgnoresQuotes` states the
consequence.

## Model

| member | source | states |
|---|---|---|
| Ints.ToUint64 | ID.go:35-37 | `uint64(timestamp)` is the clock reading reduced modulo 2^64 |
| Ints.ToInt64 | ID.go:35-37 | inverse of the `uint64(timestamp)` conversion at line 37, used to read the clock back: the signed value is congruent to the stored 64 bits modulo 2^64 |
| BigEndian.ToBytes | ID.go:37 | the n-byte representation has length n and denotes the value it was given |
| BigEndian.ToBytesFromBytes | ID.go:37 | every n-byte sequence is the representation of the number it denotes, so the representation is unique |
| BigEndian.ToBytesDigit | ID.go:37 | byte i of the representation is the (n-1-i)-th base-256 digit, most significant first |
| BigEndian.PutUint64 | ID.go:37 | writes 8 bytes; byte i is `v >> (56 - 8i)` truncated to a byte, and reading them back gives `v` |
| Hex.Encode | ID.go:44-46 | the text is twice as long as the bytes, uses only `[0-9a-f]`, and characters 2i and 2i+1 spell byte i |
| Hex.Decode | ID.go:49-53 | decoding succeeds exactly on an even number of hex digits of either case; on success byte i is the value of characters 2i and 2i+1 |
| Hex.LowerAll | ID.go:49-50 | lower-casing keeps the length, leaves no upper-case letter, is the identity on text without one, and keeps every hex digit a hex digit of the same value |
| Hex.DecodeEncode | ID.go:44-53 | decoding the encoding of any bytes gives back those bytes |
| Hex.EncodeDecode | ID.go:44-53 | encoding the decoding of well-formed hex gives the input in lower case |
| Identifier.New | ID.go:32-41 | bytes 8–15 are the random bytes and bytes 0–7 read back big-endian as `uint64(clock)` |
| Identifier.NewLayout | ID.go:33-41 | the clock reading and the random bytes can both be recovered from the new identifier |
| Identifier.NewInjective | ID.go:33-41 | two generated identifiers are equal exactly when both the clock readings and the random bytes are equal |
| Identifier.NewIsValid | ID_test.go:17-26 | an identifier generated at any clock reading other than 0 is not `Empty`, whatever the random bytes |
| Identifier.String | ID.go:43-46 | the text is exactly 32 characters from `[0-9a-f]`, and characters 2i and 2i+1 spell byte i |
| Identifier.Parse | ID.go:48-64 | succeeds exactly on 32 hex digits, where byte i is spelled by characters 2i and 2i+1; any other input returns `Empty` with `DecodeError` (not well-formed hex) or `LengthError` (well-formed hex of the wrong length) |
| Identifier.ParseString | ID_test.go:44-55 | `Parse(String(x))` returns `x` with no error, for every identifier |
| Identifier.StringParse | ID.go:49-63 | a successful `Parse` returns the identifier whose canonical text is the input in lower case |
| Identifier.CanonicalText | ID.go:43-63 | the only lower-case text that parses to an identifier is its `String`, so `Value`'s text is `String(id)` |
| Identifier.ParseRejectsInvalidHex | ID_test.go:57-67 | 31 `F`s followed by `S` fail with `DecodeError` and return `Empty` |
| Identifier.ParseRejectsWrongByteSize | ID_test.go:69-79 | 34 `F`s fail with `LengthError(17)` and return `Empty` |
| Identifier.StripQuotes | ID.go:73 | the result has no `"`, keeps every other character with its multiplicity, and is the input itself when the input had no `"` |
| Identifier.StripQuotesAppend | ID.go:73 | quote removal distributes over concatenation, so it acts on each character independently |
| Identifier.MarshalJSON | ID.go:66-69 | the output is 34 characters, begins and ends with `"`, and without its quotes is the canonical text |
| Identifier.UnmarshalJSON | ID.go:71-82 | succeeds exactly when the input with all `"` removed is 32 hex digits, giving the identifier whose text is that input in lower case; on failure it returns `Parse`'s error and the receiver keeps its old value |
| Identifier.UnmarshalIgnoresQuotes | ID.go:72-81 | any input that becomes the canonical text of `x` once quotes are removed sets the receiver to `x`, wherever the quotes stand and whether or not they are balanced |
| Identifier.JsonRoundTrip | ID_test.go:81-95 | `UnmarshalJSON` of `MarshalJSON(x)` sets any receiver to `x` with no error |
| Identifier.UnmarshalRejectsInvalidHex | ID_test.go:97-107 | the input `"FFFFFH` fails with `DecodeError` and leaves the receiver unchanged |
| Identifier.UnmarshalRejectsNull | ID.go:72-78 | the JSON literal `null` fails with `DecodeError` and leaves the receiver unchanged |
| Identifier.Value | ID.go:84-87 | the database value is a text value of lower-case hex digits that parses back to the identifier, so it is the canonical text `String(id)` |
| Identifier.Scan | ID.go:89-108 | null sets `Empty` with no error; a non-string is a `TypeMismatch` that leaves the receiver unchanged; text succeeds exactly on 32 hex digits, and on failure returns `Parse`'s error and leaves the receiver unchanged |
| Identifier.DbRoundTrip | ID_test.go:128-159 | scanning the value stored by `Value(x)` sets any receiver to `x` with no error |
| Identifier.ScanRejectsText | ID_test.go:137-152 | scanning the text `Hello, World!` fails with `DecodeError` and leaves the receiver unchanged |
| Identifier.IsValid | ID.go:110-113 | an identifier is valid exactly when some byte is non-zero |

## Left out

- `time.Now()` and `crypto/rand.Read` in `New`: the clock reading and the eight random bytes are parameters of `New`.
- `New` ignores the error from `rand.Read`. The model takes whatever eight bytes end up in the second half, so that case is covered by arbitrary parameters.
- Two calls of `New()` give different identifiers only with high probability, and that cannot be stated here. `NewInjective` states the deterministic part.
- Error message text is not modelled. `encoding/hex` has its own rule for choosing between an invalid-byte error and an odd-length error, and that rule is not modelled either: every hex failure is the single `DecodeError`.
- `MarshalJSON` and `Value` always return a nil error, so they are modelled as returning only their value.
- `Value` returns a Go interface value; it is modelled as the `Text` case of the database value.
- `Scan` sees Go's dynamic type through `src.(string)`. The model has three cases: `Null`, `Text` and `Other`. A `[]byte` value falls under `Other`, as it does in the code.
- The `encoding/json` and `database/sql` frameworks, and the SQLite test set-up, are not part of this model. Only the four adapter methods are modelled.
- Go strings are bytes, and the model's strings are characters. Every non-ASCII character is a non-hex character, and `"` is a single byte in UTF-8, so every success and failure is the same. `LengthError` only arises for hex text, which is ASCII, so the byte count it carries is the same too.
