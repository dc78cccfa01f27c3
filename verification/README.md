# pyrsbase64 glue logic, modelled in Dafny

pyrsbase64 is a Python extension, written in Rust, that exposes `b64encode`
and `b64decode` and hands the Base64 transform itself to the external
`base64` crate. This project models what the repository adds around that
crate:

- checking the altchars (the two bytes that replace `+` and `/`);
- choosing the engine;
- building the alphabet string from the altchars;
- the permissive decode filter, with its 256-entry table built in place;
- how `b64encode` sizes, allocates and fills its output buffer, and how both
  functions turn errors into exceptions;
- the `Altchars` value type of `src/altchars.rs`.

Modules, one file each:

- `Wrappers` (`wrappers.dfy`): `Option` and `Result`.
- `Bytes` (`bytes.dfy`): Rust's `u8` as a newtype, the cast `b as char`, the
  ASCII character classes, and the UTF-8 encoding a Rust `String` applies to
  characters below U+0100.
- `Symbols` (`symbols.dfy`): the two literal symbol strings of `src/lib.rs`
  (line 12 and line 112). Lemmas prove which characters they hold.
- `Altchars` (`altchars.dfy`): the `Altchars` struct and its operations.
- `Crate` (`crate.dfy`): the interface to the `base64` crate. `Crate` is a
  record of total function values:
  - `alphabetAccepts` stands for `Alphabet::new`;
  - `standardEncodePadding` stands for `STANDARD.config().encode_padding()`;
  - `encodedLen` stands for `encoded_len`;
  - `encodeSlice` stands for `encode_slice`;
  - `decode` stands for `Engine::decode`.

  Each is given only the result and error shape of the crate's signature.
  `encodeSlice` takes the contents of the slice it is lent and gives its
  contents afterwards. Every lemma holds for every choice of these
  functions. The one assumption is `KeepsSliceLength`: `encode_slice` may
  change the bytes of the `&mut [u8]` it is given but not its length.
- `PermissiveFilter` (`filter.dfy`): the permissive branch of `b64decode`.
  - `BuildTable` fills a local `array<bool>` of 256 entries with a `for`
    loop, then two indexed writes, as the source does.
  - `FilterBytes` collects the valid bytes into a new sequence.
  - Both are proved against the specification functions `TableOf` and
    `Retain`, and lemmas state what `Retain` does: subsequence, membership,
    counts, idempotence, and that noise is ignored.
- `Pyrsbase64` (`lib.dfy`): the functions of `src/lib.rs`.
  - `ValidateAltchars`, `GetEngine`, `AltcharsEngine` and `AlphabetText` are
    functions.
  - `B64Encode` allocates a zeroed `array<byte>` of the computed size before
    the engine writes into it. `B64Decode` runs the filter.
  - Both methods are proved against the specification functions `Encode` and
    `Decode`, and the lemmas about those functions state the error flow.

## Behaviour worth noting

- Every error the model covers is a Python `ValueError` (`Error.Message`).
  Its message is a fixed text (src/lib.rs:61-63, src/lib.rs:75-77), or a fixed
  prefix followed by the altchars (src/lib.rs:15) or by the crate's display
  text (src/lib.rs:84, src/lib.rs:128-130). The `TypeError` of `b64decode`
  (src/lib.rs:101-104) and the `PyBufferError`s of the buffer extraction
  (src/lib.rs:33-35, 39-41, 50) are listed under "## Left out".
- Passing `+/` explicitly builds a custom engine from the text
  `A–Z a–z 0–9 + /` (src/lib.rs:20-24); only a missing altchars argument
  selects `STANDARD` (src/lib.rs:26). See `ExplicitDefaultPair`. Whether the
  custom engine encodes like `STANDARD` depends on the crate.
- Each altchars byte is cast to `char` and formatted into a `String`
  (src/lib.rs:10-14), so a byte of 0x80 or above becomes two UTF-8 bytes and
  the text given to `Alphabet::new` is then 65 or 66 bytes long
  (`AlphabetTextLayout`).
- The output size is computed with `STANDARD`'s padding setting whatever
  engine then encodes (src/lib.rs:74, `EncodeSizeIgnoresAltchars`).
- `b64encode` returns the whole buffer of the computed size and ignores the
  count `encode_slice` returns (src/lib.rs:81-86, `EncodeBufferSize`).
- `b64encode` and `b64decode` are the only functions the module registers
  (src/lib.rs:133-138).
- `src/lib.rs` declares no `mod altchars;`, so the `Altchars` type of
  `src/altchars.rs` is not compiled into the extension. It is modelled on its
  own.

## Model

| member | source | states |
|---|---|---|
| `Bytes.Utf8Char` | src/lib.rs:10-14 | a character below U+0100 encodes as one byte equal to its code point when below U+0080, otherwise as a lead byte 0xC2/0xC3 and a continuation byte that together give the code point back |
| `Bytes.Utf8Append` | src/lib.rs:11-14 | the bytes of the formatted string are the bytes of the prefix followed by those of the altchars string |
| `Bytes.Utf8OfAscii` | src/lib.rs:12 | an ASCII string is stored as one byte per character, equal to its code point |
| `Symbols.AlphabetPrefixMembers` | src/lib.rs:12 | the fixed alphabet head has 62 characters, all ASCII, and contains exactly the ASCII letters and digits |
| `Symbols.PermissiveSymbolsMembers` | src/lib.rs:112 | the permissive symbol string is the alphabet head followed by `=`, all ASCII, and contains exactly the ASCII letters, digits and `=` |
| `Altchars.Altchars.New` | src/altchars.rs:14-34 | `plus(new(p, s)) == p` and `slash(new(p, s)) == s` |
| `Altchars.Altchars.Default` | src/altchars.rs:18-22 | the default value equals `new(b'+', b'/')` and displays as `+/` |
| `Altchars.Altchars.Display` | src/altchars.rs:49-53 | the display text is exactly two characters: the plus substitute, then the slash substitute, each the character with that code point |
| `Altchars.ExtractBound` | src/altchars.rs:38-46 | extraction fails exactly when the buffer does not hold 2 bytes, and otherwise yields `new(bytes[0], bytes[1])` |
| `Altchars.NewInjective` | src/altchars.rs:9-16 | `new(p, s) == new(p', s')` exactly when `p == p'` and `s == s'` |
| `Altchars.ExtractRoundTrip` | src/altchars.rs:39-45 | extracting the two bytes of a pair gives that pair back |
| `Altchars.DisplayInjective` | src/altchars.rs:49-53 | two pairs display the same text exactly when they are equal |
| `PermissiveFilter.TableOf` | src/lib.rs:110-116 | the specification table has one entry for each of the 256 byte values |
| `PermissiveFilter.BuildTable` | src/lib.rs:110-116 | after the loop and the two writes, `valid[b]` is true exactly when `b` is an ASCII letter or digit, `=`, `altchars[0]` or `altchars[1]` |
| `PermissiveFilter.FilterBytes` | src/lib.rs:118-122 | the collected bytes are the input's bytes whose table entry is true, in input order |
| `PermissiveFilter.MarkSymbols` | src/lib.rs:112-114 | after the loop, an entry is true exactly when it was true before or its byte is one of the symbols; no other entry changes |
| `PermissiveFilter.Retain` | src/lib.rs:118-122 | the filter output is never longer than the input and holds only bytes the table marks valid |
| `PermissiveFilter.RetainPositions` | src/lib.rs:118-122 | the kept bytes are the bytes at strictly increasing input positions, each holding a valid byte |
| `PermissiveFilter.PositionsCoverValid` | src/lib.rs:118-122 | every input position holding a valid byte is among the kept positions |
| `PermissiveFilter.RetainIsSubsequence` | src/lib.rs:118-122 | the filter output is an order-preserving subsequence of the input and never longer than it |
| `PermissiveFilter.RetainCounts` | src/lib.rs:118-122 | a valid byte value occurs in the output as often as in the input; an invalid one never occurs |
| `PermissiveFilter.RetainKeepsValid` | src/lib.rs:118-122 | one order-preserving embedding of the output into the input covers every input position that holds a valid byte: each such occurrence is kept |
| `PermissiveFilter.RetainAppend` | src/lib.rs:118-122 | filtering a concatenation is the concatenation of the filtered parts |
| `PermissiveFilter.RetainAllValid` | src/lib.rs:118-122 | a sequence made only of valid bytes is left unchanged |
| `PermissiveFilter.RetainNoneValid` | src/lib.rs:118-122 | a sequence without valid bytes filters to nothing |
| `PermissiveFilter.RetainIdempotent` | src/lib.rs:118-122 | filtering twice gives the same result as filtering once |
| `PermissiveFilter.RetainIgnoresNoise` | src/lib.rs:118-122 | inserting invalid bytes anywhere leaves the filter output unchanged |
| `Pyrsbase64.ValidateAltchars` | src/lib.rs:59-66 | the error (with its fixed message) is returned exactly when the length is not 2; otherwise the result is `[altchars[0], altchars[1]]` |
| `Pyrsbase64.AltcharsText` | src/lib.rs:10 | the altchars string is two characters whose code points are the two bytes |
| `Pyrsbase64.AltcharsTextUtf8` | src/lib.rs:10 | the altchars string is stored as the UTF-8 encoding of the first byte's character, then that of the second's |
| `Pyrsbase64.AlphabetText` | src/lib.rs:10-14 | the alphabet text is the 62 fixed symbols, byte for byte, then the UTF-8 encoding of `altchars[0]`, then that of `altchars[1]` |
| `Pyrsbase64.AlphabetTextLayout` | src/lib.rs:10-14 | the alphabet text is 64 bytes exactly when both altchars are ASCII, and then ends in `altchars[0]`, `altchars[1]` |
| `Pyrsbase64.AltcharsEngine` | src/lib.rs:9-17 | an engine is built from the alphabet text exactly when `Alphabet::new` accepts it; a rejection becomes the error "Invalid altchars: " followed by the two altchars |
| `Pyrsbase64.GetEngine` | src/lib.rs:19-28 | no altchars give `[+, /]` and the standard engine; altchars of a length other than 2 give the length error; two altchars give that pair with its custom engine, or the invalid-altchars error |
| `Pyrsbase64.ExplicitDefaultPair` | src/lib.rs:19-28 | passing `+/` selects the default pair but a custom engine built from the 64-byte text ending in `+`, `/`, not the standard engine |
| `Pyrsbase64.Zeros` | src/lib.rs:81 | the fresh buffer holds `size` zero bytes |
| `Pyrsbase64.Encode` | src/lib.rs:70-86 | a successful encode returns exactly as many bytes as `encoded_len` computed; a failure is never a decoding error |
| `Pyrsbase64.B64Encode` | src/lib.rs:70-86 | the method returns exactly what the encode flow specifies: engine selection, then sizing, then a zeroed buffer of that size, as the engine leaves it |
| `Pyrsbase64.EncodeAltcharsError` | src/lib.rs:72 | an altchars error is returned before any sizing or encoding |
| `Pyrsbase64.EncodeOverflow` | src/lib.rs:74-79 | once an engine is chosen, the overflow error is returned exactly when `encoded_len` overflows |
| `Pyrsbase64.EncodeBufferSize` | src/lib.rs:74-86 | a successful encode returns a buffer of exactly the computed size, holding what `encode_slice` left in a zeroed buffer of that size |
| `Pyrsbase64.EncodeSurfacesEngineError` | src/lib.rs:82-84 | an `encode_slice` failure is returned as an encoding error carrying the crate's message, never as partial output |
| `Pyrsbase64.EncodeSizeIgnoresAltchars` | src/lib.rs:74 | two successful encodes of the same input return buffers of the same length, whatever altchars were given |
| `Pyrsbase64.Surface` | src/lib.rs:128-130 | a decoder success is returned unchanged and a decoder failure becomes a decoding error carrying its message |
| `Pyrsbase64.Decode` | src/lib.rs:107-130 | an altchars error is returned unchanged, before anything is decoded; a failure is never a sizing or encoding error |
| `Pyrsbase64.B64Decode` | src/lib.rs:107-130 | the method returns exactly what the decode flow specifies: engine selection, then the filter unless validating, then the engine's result |
| `Pyrsbase64.DecodeStrictPassesInput` | src/lib.rs:109-126 | with `validate`, the engine receives the input bytes unmodified |
| `Pyrsbase64.DecodePermissiveInput` | src/lib.rs:109-123 | without `validate`, the engine receives an order-preserving subsequence of the input made only of permitted bytes, with every permitted byte kept as often as it occurs |
| `Pyrsbase64.DecodeIgnoresNoise` | src/lib.rs:109-123 | in permissive mode, non-permitted bytes inserted anywhere do not change the result |
| `Pyrsbase64.DecodePrefilteredInput` | src/lib.rs:118-123 | in permissive mode, decoding already filtered input gives the same result as decoding the original |
| `Pyrsbase64.DecodeModesAgreeOnCleanInput` | src/lib.rs:109-126 | on input made only of permitted bytes, permissive and strict decoding return the same result |

## Left out

- Python buffer extraction (`slice_from_py_any`, `convert_pybytebuf_to_slice`, src/pybuf.rs): this is FFI over raw pointers. Inputs and altchars arrive as `seq<byte>`, so the `PyBufferError`s it raises are not modelled.
- `b64decode`'s `&str` extraction and its `TypeError` for unsupported argument types: this is interop glue. A string input arrives as its UTF-8 bytes.
- Module registration (`#[pymodule]`) and the Python package's re-exports: interop glue.
- The `FromPyObject` plumbing of `Altchars::extract_bound`: only the length check on the extracted bytes is modelled.
- The `base64` crate: `Alphabet::new`, `encoded_len`, `encode_slice`, `decode`, `STANDARD` and `PAD` are foreign code. They are arbitrary functions in `Crate`, so nothing is proved about the Base64 transform itself. That excludes round trips, the length and padding laws, strict rejection of noise, and rejection of duplicate or alphanumeric altchars.
- `B64Encode`: the count that `encode_slice` returns is discarded by the source, so the model does not carry it.
- `EncodeBufferSize`: does not say that the bytes after those `encode_slice` writes are still zero, because which bytes it writes is up to the crate; it states only that the buffer keeps its size and is returned as the engine leaves it.
- Python's `bytes` objects and exception classes: results are `Result` values and errors an `Error` datatype with the exact message text.
