# argon2aes in Dafny

A model of the core of `argon2aes`, a Go package and command that encrypt data
under a password and print the result in a base-92 text form. Three parts are
modelled.

- **The base-92 codec of package `base92`.** An `Encoding` holds a 92-entry
  table from digit to symbol and a 256-entry table from byte to digit, with
  0xFF for bytes that are not symbols. `EncodeToString` reads the input as a
  big-endian number and divides it by 92 repeatedly, which gives the symbols
  least significant first. It then adds one digit-0 symbol for each leading
  zero byte and reverses the buffer in place. `DecodeString` runs Horner's rule
  over the symbols. It counts the digit-0 symbols read while the accumulator is
  still zero and puts that many zero bytes back in front.
- **The older codec of the `a2a` command** (`base92encode`, `base92decode`). It
  has the same divide and Horner loops, but a different alphabet, a linear
  search in place of the table, and no handling of leading zeros.
- **The password envelope** (`Encrypt`, `Decrypt`, `DeriveKey`). The envelope
  is a 32-byte salt, a 12-byte GCM nonce and the sealed plaintext. The key is
  Argon2id of the password and the salt, with time 3, memory 64 MiB, 4 threads
  and 32 bytes of output.

The modules:

- `Results`: the error-or-value result.
- `SeqUtil`: sequence helpers, including the in-place reversal loop both
  encoders share.
- `BigNat`: the `math/big` arithmetic on unbounded naturals. `SetBytes` and
  `Bytes` are modelled in base 256, and the `DivMod` and Horner loops in base
  92.
- `Base92`: package `base92`. `Encoding` is a class with two array fields.
- `A2A`: the `a2a` codec.
- `Envelope`: the envelope.

Each codec method is proved equal to a specification function (`Encode`,
`Decode`), and the round trips are proved about those functions.

The foreign primitives are not modelled inside. `argon2.IDKey`, AES-GCM `Seal`
and `Open` are the function fields of a `Primitives` value. Two laws are
stated in `Lawful` and assumed only where a lemma or contract says so:

- the KDF returns as many bytes as asked for;
- opening with the key and nonce used to seal returns the plaintext.

The two `rand.Read` calls of `Encrypt` are parameters (`saltDraw`,
`nonceDraw`). Each is either the bytes drawn or the error.

## Model

| member | source | states |
|---|---|---|
| Base92.NewEncoding | pkg/base92/base92.go:19-34 | Fails with `AlphabetLength(n)` exactly when the alphabet is not 92 bytes long. Otherwise it returns new tables built from that alphabet. With distinct symbols, every symbol maps back to its digit and every other byte maps to 0xFF. |
| Base92.Encoding.Valid | pkg/base92/base92.go:24-32 | The state `NewEncoding` leaves behind: a 92-entry forward table holding the alphabet, and a 256-entry reverse table whose entry for each byte is `DecodeEntry` of it. |
| Base92.Encoding.constructor | pkg/base92/base92.go:24-32 | The forward table holds the alphabet. The reverse table holds each symbol's last position and 0xFF for every other byte. |
| Base92.Encoding.TablesInverse | pkg/base92/base92.go:27-32 | With distinct symbols, `decodeMap[encode[i]] == i` for every digit, and every byte outside the alphabet maps to 0xFF. |
| SeqUtil.LastIndex | pkg/base92/base92.go:30-32 | The last position of a byte in the alphabet, or -1 when it is absent: the position holds the byte and no later one does. This is the position the table-building loop leaves behind, because later writes win. |
| Base92.DecodeEntry | pkg/base92/base92.go:27-32 | The table entry is 0xFF exactly when the byte is not a symbol. Otherwise it is a digit below 92 whose symbol is that byte, and no later position holds the byte, because later writes win. |
| Base92.DecodeEntryInverts | pkg/base92/base92.go:30-32 | With distinct symbols, the entry for the symbol of digit `i` is `i`. |
| Base92.Encode | pkg/base92/base92.go:36-73 | Empty input gives the empty string, and every byte produced is an alphabet symbol. |
| Base92.Encoding.EncodeToString | pkg/base92/base92.go:36-73 | The counting, DivMod, zero-appending and reversal loops produce exactly `Encode(alphabet, src)`. |
| SeqUtil.PrefixRun | pkg/base92/base92.go:41-49 | The leading-zero count is the length of the run of zeros at the front: every byte before it is zero and the byte at it is not. |
| SeqUtil.PrefixRunUnique | pkg/base92/base92.go:41-49 | Those three properties determine the count, which is how the counting loop is tied to `PrefixRun`. |
| BigNat.FromBytes | pkg/base92/base92.go:51 | `SetBytes` of big-endian bytes. The number is zero exactly when every byte is zero. |
| BigNat.Emitted | pkg/base92/base92.go:56-60 | The symbols the DivMod loop appends, least significant first. There are none exactly when the number is zero, and each is one of the first 92 symbols. |
| BigNat.Digits | pkg/base92/base92.go:56-60 | The base-92 digits of `x`: each is below the base, there are none exactly when `x` is 0, there is no leading zero, and their Horner value is `x`. |
| BigNat.EmittedReversed | pkg/base92/base92.go:56-70 | Reversing the symbols the DivMod loop emits, least significant first, spells the digits most significant first. |
| BigNat.EmittedWithZeros | pkg/base92/base92.go:62-70 | Appending `z` digit-0 symbols before the reversal puts `z` digit-0 symbols in front of the digits. |
| SeqUtil.ReverseInPlace | pkg/base92/base92.go:67-70 | The swap loop leaves the array holding the reversal of its old contents. |
| Base92.EncodeAllZero | pkg/base92/base92.go:42-65 | `n` zero bytes encode to `n` copies of the digit-0 symbol. |
| Base92.DefaultZeroByte | pkg/base92/base92_test.go:15 | Over the default alphabet, the byte 0 encodes as "0". |
| Base92.Decode | pkg/base92/base92.go:75-109 | The empty string decodes to no bytes. Decoding fails, always with `InvalidCharacter`, exactly when some byte is not a symbol. |
| Base92.Encoding.DecodeString | pkg/base92/base92.go:75-109 | The Horner loop with its leading-zero counter and the three returns produce exactly `Decode(alphabet, s)`. |
| Base92.DecodeRejects | pkg/base92/base92.go:84-88 | One byte that is not a symbol makes the whole decode fail, with no partial result. |
| Base92.HornerPrefixStep | pkg/base92/base92.go:84-94 | One loop round keeps the loop state: multiply by 92, add the digit, and count the symbol if the accumulator is still zero. |
| BigNat.ValueZero | pkg/base92/base92.go:91-93 | The accumulator is zero exactly when every digit read so far is zero, which is what the leading-zero test relies on. |
| Base92.DecodeOfDecodable | pkg/base92/base92.go:96-108 | Once every symbol is read, each of the three return statements yields `Decode`'s value: `z` zero bytes followed by the minimal bytes of the accumulator. |
| BigNat.ToBytes | pkg/base92/base92.go:96 | `big.Int.Bytes`: empty exactly for zero, never a leading zero byte, and `SetBytes` of it gives the number back. |
| BigNat.BytesRoundTrip | pkg/base92/base92.go:51 | `SetBytes` followed by `Bytes` loses exactly the leading zero bytes. |
| BigNat.DigitsOfValue | pkg/base92/base92.go:89-90 | A digit sequence with no leading zero is the digit sequence of its own Horner value. |
| BigNat.ValueLeadingZeros | pkg/base92/base92.go:91-93 | Leading zero digits do not change the accumulator. |
| Base92.DigitValues | pkg/base92/base92.go:85 | The table lookup of each byte. There is one digit per byte, and each symbol's digit is below 92 and spells that symbol back. |
| Base92.DigitValuesOfSpell | pkg/base92/base92.go:85 | With distinct symbols, looking up the symbols of a digit sequence gives back the digits. |
| Base92.RoundTrip | pkg/base92/base92.go:36-109 | For any alphabet of 92 distinct symbols, decoding the encoding of any bytes gives them back, including leading and all-zero bytes. |
| Base92.AlphabetDistinct | pkg/base92/base92.go:10 | The default alphabet has 92 symbols and none repeats. |
| Base92.PunctuationRows | pkg/base92/base92.go:10 | The thirty punctuation symbols of the default alphabet, taken together, do not repeat, and none is a digit or a letter. |
| Base92.PunctuationRowsDisjoint | pkg/base92/base92.go:10 | No symbol of the first fifteen punctuation symbols reappears among the last fifteen. |
| Base92.DefaultEncoding | pkg/base92/base92.go:12 | `NewEncoding` accepts the default alphabet and gives valid tables. |
| Base92.DefaultRoundTrip | pkg/base92/base92_test.go:55-74 | Over the default alphabet, every byte sequence survives encoding and decoding. |
| A2A.AlphabetsDistinct | cmd/a2a/encoding.go:8 | The alphabet constant holds 93 symbols with no repeats. Its first 92 symbols are the intended alphabet. |
| A2A.EncodeWith | cmd/a2a/encoding.go:10-32 | Empty input gives the empty string, and every byte produced is an alphabet symbol. |
| A2A.Encode | cmd/a2a/encoding.go:10-32 | `base92encode` over the command's constant. Empty input gives the empty string, and every byte produced is one of the first 92 symbols, so "~" is never written. |
| A2A.Base92Encode | cmd/a2a/encoding.go:10-32 | The DivMod and reversal loops produce exactly `Encode(data)`. |
| A2A.EncodeAllZero | cmd/a2a/encoding.go:15-24 | Any run of zero bytes encodes to the empty string: the loop never runs and no leading zeros are recorded. |
| A2A.DecodeWith | cmd/a2a/encoding.go:34-57 | The empty string gives no bytes. Decoding fails exactly when some byte is not a symbol. A successful result never starts with a zero byte. |
| A2A.Decode | cmd/a2a/encoding.go:34-57 | `base92decode` over the command's constant. The empty string gives no bytes. Decoding fails exactly when some byte is none of its 93 symbols. A successful result never starts with a zero byte. |
| A2A.DigitIndexes | cmd/a2a/encoding.go:42-48 | The linear search of each byte. There is one position per byte, the symbol there is that byte, and no earlier symbol is. |
| SeqUtil.FirstIndex | cmd/a2a/encoding.go:42-48 | The first position of a byte in the alphabet, or -1 (the search's initial `index`) when it is absent: the position holds the byte and no earlier one does. |
| A2A.Base92Decode | cmd/a2a/encoding.go:34-57 | The Horner loop with its nested linear search produces exactly `Decode(s)`. |
| A2A.DigitIndexesOfSpell | cmd/a2a/encoding.go:43-48 | With distinct symbols, the search finds each digit's symbol at that digit. |
| A2A.DecodeRejects | cmd/a2a/encoding.go:49-51 | One byte that is not a symbol makes the whole decode fail. |
| A2A.HornerPrefixStep | cmd/a2a/encoding.go:41-54 | One loop round keeps the loop state: multiply by 92 and add the position the search found. |
| A2A.DecodeOfDecodable | cmd/a2a/encoding.go:56 | Once every symbol is read, the result is the minimal bytes of the accumulator. |
| A2A.RoundTripWith | cmd/a2a/encoding.go:10-57 | Over any alphabet of at least 92 distinct symbols, the round trip holds exactly when the input is empty or does not start with a zero byte. |
| A2A.RoundTrip | cmd/a2a/encoding.go:10-57 | The same restriction holds for the command's own alphabet. |
| A2A.DecodeTilde | cmd/a2a/encoding.go:41-54 | "~" is accepted as digit 92 and decodes to the byte 92. |
| A2A.DecodeHashBang | cmd/a2a/encoding.go:41-54 | "#!" also decodes to the byte 92. |
| A2A.EncodeNinetyTwo | cmd/a2a/encoding.go:15-31 | The byte 92 encodes as "#!". |
| A2A.TildeIsDigitNinetyTwo | cmd/a2a/encoding.go:8 | "~" and "#!" both decode to the byte 92, and that byte encodes as "#!". |
| A2A.CanonicalDecode | cmd/a2a/encoding.go:10-57 | With exactly 92 distinct symbols, every decodable string that does not start with the digit-0 symbol is the encoding of what it decodes to. |
| A2A.IntendedAlphabetCanonical | cmd/a2a/encoding.go:8 | Dropping the 93rd symbol leaves the encoder's output unchanged and keeps the round trip. Every decodable string without a leading digit-0 symbol then has a single spelling. |
| Envelope.DeriveKey | crypto.go:20-23 | Under the KDF law, the key is `keyLength` = 32 bytes, which is a valid AES key size. |
| Envelope.ValidKeySize | crypto.go:38-41 | The key lengths `aes.NewCipher` accepts: 16, 24 and 32 bytes. Any other length is the error returned at crypto.go:71-74. |
| Envelope.Lawful | crypto.go:22 | The laws of the primitives: `argon2.IDKey` returns as many bytes as asked for, and `Open` of what `Seal` produced (crypto.go:53, 87) with the same valid key and a 12-byte nonce returns the plaintext. |
| Envelope.Decrypt | crypto.go:62-93 | Input shorter than the salt is "too short" before any key derivation. An invalid key size is reported next. Under the laws, a remainder shorter than the nonce is "too short". Otherwise the result is `Open` of the key derived from bytes 0-31, the nonce at bytes 32-43 and the rest, returned unchanged, error included. |
| Envelope.ShortInputSkipsKeyDerivation | crypto.go:64-66 | Input shorter than 32 bytes is rejected with the same error whatever the primitives and the password. |
| Envelope.DecryptOpensFrame | crypto.go:67-90 | Decrypting salt, nonce and sealed part laid end to end opens the sealed part with the key derived from that salt. |
| Envelope.DecryptSealed | crypto.go:53-57 | Under the laws, the envelope of a plaintext decrypts to that plaintext with the same password. |
| Envelope.Encrypt | crypto.go:25-60 | The errors come in the source's order: blank password, salt draw, key size, nonce draw. Under the laws, it succeeds exactly when the password is non-empty and both draws succeed. The output is the salt, then the nonce, then the sealed plaintext, of length 32 + 12 + the sealed length, and it decrypts back to the plaintext. |

## Left out

- Base92.RoundTrip, Base92.Decode: the decoders range over the runes of a Go string, but the model reads bytes. The two readings agree only when every alphabet byte is below 0x80, as in the default alphabet and the `a2a` constant. With such an alphabet, the bytes of a multi-byte character are all outside it in the model, and the whole character is one rune outside it in the source; both fail. An alphabet that holds bytes 0x80 to 0xFF is not modelled faithfully. There the source looks up a whole rune, so a valid two-byte character becomes one table lookup, and a lone high byte becomes U+FFFD. Indexing `decodeMap` with a rune above 255 panics (pkg/base92/base92.go:85). The model instead reads each byte as a symbol.
- Base92.NewEncoding: the source panics when the alphabet is not 92 bytes long (pkg/base92/base92.go:21). The model returns `Failure(AlphabetLength(n))` instead, with `n` the length in the panic message.
- `RandomFailure` and `AuthenticationFailed` in `Envelope.Error` name errors that come from outside the model. `RandomFailure` is what a failed `rand.Read` draw carries. `AuthenticationFailed` is what a lawful `Open` may return for foreign input. No modelled operation makes either one; they are passed on as is.
- `cipher.NewGCM` is treated as infallible. It fails only for a block size other than 16, and AES blocks are 16 bytes.
- Argon2id, AES and GCM themselves are left out. They appear only through the `Primitives` fields and the two laws in `Lawful`.
- Tamper detection and wrong-password failure are left out. No law says `Open` fails on foreign input, so `Decrypt` only passes on whatever `Open` returns.
- `crypto/rand` is left out. Its draws are parameters, and a successful draw is assumed to fill its buffer, as `rand.Read` does without an error.
- `DeriveKey` determinism is not stated as a lemma. It holds by construction: a Dafny function of the password and salt.
- `cmd/a2a/main.go` is not part of this model: flag parsing, the password prompt, base64 transcoding and file I/O.
- `files.go` is not part of this model: `EncryptFile` and `DecryptFile` only wrap file reads and writes around `Encrypt` and `Decrypt`.
- The concrete test vectors of `pkg/base92/base92_test.go` other than `{0}` are not stated, for example "Hello World".

## Findings

| source | as written | input that shows it | evidently intended | confidence | as-written member | corrected member |
|---|---|---|---|---|---|---|
| cmd/a2a/encoding.go:8 | The backslash in the alphabet literal is an escape, so the constant holds 93 bytes: "!" and then "#" through "~". The encoder only writes the first 92. The decoder's linear search still accepts "~" as digit 92. | "~" decodes to the byte 92, and so does "#!", which is what encoding the byte 92 gives. | A 92-symbol alphabet, so that each accepted string has a single meaning and spelling. | medium, not executed | A2A.TildeIsDigitNinetyTwo | A2A.IntendedAlphabetCanonical |
