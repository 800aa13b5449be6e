# python-pkcs11 `types.py` in Dafny

A verified model of the pure logic of `pkcs11/types.py` in python-pkcs11, the
high-level PKCS#11 wrapper. It covers:

- `_CK_UTF8CHAR_to_str`. It decodes the text fields of the token's info records
  (`slotDescription`, `manufacturerID`, `label`): it keeps the first 31 bytes,
  decodes them as UTF-8 and strips trailing whitespace (`data[:31].decode('utf-8').rstrip()`).
- `_CK_VERSION_to_tuple`. It turns a `CK_VERSION` into a `(major, minor)` pair.
- The `Slot`, `Token` and `Session` records. These are built once from the raw
  records and never changed, so they are modelled as datatypes.
- `Session.__enter__` / `__exit__`.
- The input normalisation of `EncryptMixin.encrypt` in front of the raw chunked `_encrypt`.

Modules:

- `Wrappers` (wrappers.dfy): `Option` and `Result`. A `Result` is either the
  value a Python call returns or the exception it raises.
- `Utf8` (utf8.dfy): a strict UTF-8 decoder and encoder following section 4 of
  RFC 3629. This is what Python's `bytes.decode('utf-8')` and `str.encode('utf-8')` do.
  A string is a sequence of code points. The model proves three things: encoding and
  decoding are mutually inverse; the decoder accepts exactly the RFC 3629 grammar;
  and cutting valid input leaves valid input exactly when the cut does not land on a
  continuation byte.
- `Whitespace` (whitespace.dfy): Python's `str.isspace` set of code points and
  `str.rstrip()`. The stripped string is characterised as the unique prefix that is
  followed only by whitespace and does not itself end in whitespace.
- `Types` (types.dfy): the functions and records of `pkcs11/types.py`.

The collaborators whose real bodies live in the compiled `_pkcs11` extension
become function parameters with no assumed behaviour: `_encrypt` (the
`RawEncrypt` argument of `Encrypt`) and `Session.close` (the `close` argument
of `Exit`).

Two consequences of the code, as written, are worth stating:

- `_CK_UTF8CHAR_to_str` keeps 31 bytes of every field, whatever its declared
  width. PKCS#11 declares `slotDescription` as 64 bytes and `manufacturerID` and
  `label` as 32, so a full 32-byte `label` or `manufacturerID` loses its last byte
  (`Types.Utf8CharToStrAsciiCut`), and a 64-byte `slotDescription` loses its last 33.
- `bytes.decode('utf-8')` is strict, so the decoder raises `UnicodeDecodeError`
  when the first 31 bytes are not well-formed UTF-8. That includes a well-formed
  field whose cut after byte 31 splits a multi-byte sequence
  (`Types.Utf8CharToStrSplitSequence`). A field left at its `None` default raises
  `TypeError`.

## Model

| member | source | states |
|---|---|---|
| `Utf8.CharValue` | pkcs11/types.py:15 | a well-formed UTF-8 sequence stands for a scalar value (never a surrogate), in the range that belongs to its length, so overlong forms are impossible |
| `Utf8.EncodeChar` | pkcs11/types.py:244 | the encoding of a scalar value is a well-formed sequence whose value is that scalar |
| `Utf8.EncodeCharValue` | pkcs11/types.py:15 | every well-formed sequence is the encoding of its value, so per-character encoding and decoding are inverse bijections |
| `Utf8.WellFormedCharShape` | pkcs11/types.py:15 | a well-formed sequence has the length its lead byte announces; the lead byte is not a continuation byte and all the others are |
| `Utf8.Decode` | pkcs11/types.py:15 | successful strict decoding yields only scalar values, at most one per byte |
| `Utf8.DecodeStep` | pkcs11/types.py:15 | a successful decoding is the first sequence's value followed by the decoding of the rest |
| `Utf8.Encode` | pkcs11/types.py:244 | a string encodes to between one and four bytes per code point |
| `Utf8.EncodeDecodes` | pkcs11/types.py:244 | decoding the encoding of a string gives the string back |
| `Utf8.EncodeText` | pkcs11/types.py:243-244 | `str.encode('utf-8')` fails exactly on strings that hold a surrogate; otherwise its output decodes back to the string |
| `Utf8.EncodeAppend` | pkcs11/types.py:244 | encoding distributes over concatenation |
| `Utf8.EncodePrefix` | pkcs11/types.py:15 | the encoding of a prefix is a prefix of the encoding |
| `Utf8.EncodeCons` | pkcs11/types.py:244 | a string that starts with the value of a well-formed sequence encodes to that sequence followed by the encoding of the rest |
| `Utf8.DecodeEncode` | pkcs11/types.py:15 | any input that decodes is the encoding of its decoding, so decoding is injective |
| `Utf8.DecodeAppend` | pkcs11/types.py:15 | concatenating two decodable inputs concatenates their decodings |
| `Utf8.DecodeAcceptsWellFormed` | pkcs11/types.py:15 | the decoder succeeds exactly on the inputs that RFC 3629's `*( UTF8-char )` grammar derives (both directions) |
| `Utf8.CutDecodes` | pkcs11/types.py:15 | a decodable input cut after k bytes stays decodable exactly when byte k is not a continuation byte |
| `Whitespace.IsWhitespaceIsListed` | pkcs11/types.py:15 | the code points `rstrip()` removes are exactly Python's 29 `str.isspace` code points: 0x09-0x0D, 0x1C-0x20, 0x85, 0xA0, 0x1680, 0x2000-0x200A, 0x2028, 0x2029, 0x202F, 0x205F, 0x3000 (so NUL padding is kept) |
| `Whitespace.RStrip` | pkcs11/types.py:15 | `rstrip()` returns a prefix of its input; everything it removed is whitespace; the prefix does not end in whitespace |
| `Whitespace.RStripUnique` | pkcs11/types.py:15 | any string with those three properties is the result of `rstrip()`: a maximal whitespace suffix is removed |
| `Whitespace.RStripIdempotent` | pkcs11/types.py:15 | stripping twice is the same as stripping once |
| `Whitespace.RStripAppendWhitespace` | pkcs11/types.py:15 | appending whitespace to a string does not change its stripped form |
| `Types.Kept` | pkcs11/types.py:15 | `data[:31]` is a prefix of the field, 31 bytes long, or the whole field if that is shorter |
| `Types.Utf8CharToStr` | pkcs11/types.py:11-15 | the decoder succeeds exactly when the kept bytes follow the UTF-8 grammar, and fails with `UnicodeDecodeError` otherwise. On success the result is the decoded kept bytes with a maximal whitespace suffix removed, and it re-encodes to a prefix of the field that is at most 31 bytes long |
| `Types.StrippedEncodingIsPrefix` | pkcs11/types.py:15 | the encoding of the stripped decoding is a prefix of the decoded bytes |
| `Types.Utf8CharToStrReadsFirst31` | pkcs11/types.py:15 | bytes after the 31st never change the result |
| `Types.Utf8CharToStrShortField` | pkcs11/types.py:15 | a field of at most 31 bytes is decoded whole: it succeeds iff the whole field decodes, and its result is that decoding stripped |
| `Types.Utf8CharToStrSplitSequence` | pkcs11/types.py:15 | for a field that is valid UTF-8 and longer than 31 bytes, decoding fails exactly when byte 31 is a continuation byte, i.e. when the cut splits a character |
| `Types.Utf8CharToStrStable` | pkcs11/types.py:15 | a decoded string is a fixed point: stripping it again, or decoding its own encoding, gives it back |
| `Types.Blanks` | pkcs11/types.py:15 | n bytes, each the blank 0x20 that PKCS#11 pads fixed-width fields with |
| `Types.Widen` | pkcs11/types.py:15 | each byte is taken as the code point of the same value |
| `Types.DecodeAscii` | pkcs11/types.py:15 | bytes below 0x80 decode to code points of the same values |
| `Types.Utf8CharToStrPaddedField` | pkcs11/types.py:15 | a text of at most 31 encoded bytes, followed by any number of blanks, decodes to that text with its trailing whitespace stripped |
| `Types.Utf8CharToStrAsciiCut` | pkcs11/types.py:15 | an ASCII field longer than 31 bytes decodes to its first 31 characters with trailing whitespace stripped, whatever follows; when the 31st is not whitespace, to exactly those 31 characters |
| `Types.VersionToTuple` | pkcs11/types.py:18-20 | the pair's first component is `major` and its second is `minor` |
| `Types.VersionToTupleInjective` | pkcs11/types.py:18-20 | two versions give equal pairs iff they are equal, so nothing is lost |
| `Types.Utf8CharArg` | pkcs11/types.py:33-34 | a text field left at `None` raises `TypeError`; a present one is decoded |
| `Types.VersionArg` | pkcs11/types.py:35-36 | a version left at `None` raises `TypeError`; a present one becomes its pair |
| `Types.NewSlot` | pkcs11/types.py:32-52 | a slot is built iff both text fields are present and decode and both versions are present. Its description and manufacturer are the decoder's results, its versions are the converter's pairs, and the id and flags are kept. The first failing field in source order decides the exception: a missing description or manufacturer raises `TypeError`, an undecodable one `UnicodeDecodeError`, and a missing hardware or firmware version `TypeError` |
| `Types.SlotTextFields` | pkcs11/types.py:44-47 | a built slot's description and manufacturer end in no whitespace, and each re-encodes to a prefix of the first 31 bytes of its raw field |
| `Types.NewToken` | pkcs11/types.py:95-105 | a token is built iff the label is present and decodes. Its label is the decoder's result; the slot, serial number and flags are kept as given. A missing label raises `TypeError` and an undecodable one `UnicodeDecodeError` |
| `Types.NewSession` | pkcs11/types.py:140-148 | a session stores the token, handle, read/write mode and user type it is given |
| `Types.NewSessionDefaults` | pkcs11/types.py:140 | left to its defaults, a session is read-only (`rw=False`) and has user type `NOBODY` |
| `Types.Enter` | pkcs11/types.py:150-151 | `__enter__` returns the session itself |
| `Types.Exit` | pkcs11/types.py:153-154 | leaving a `with` block: an exception raised by `close()` replaces the pending one; otherwise the pending exception is let through |
| `Types.ExitNeverSuppresses` | pkcs11/types.py:153-154 | a `with` block ends cleanly iff the body ended cleanly and `close()` succeeded |
| `Types.Join` | pkcs11/types.py:249 | `b''.join` of one chunk is that chunk, and of no chunks is empty |
| `Types.JoinAppend` | pkcs11/types.py:249 | joining maps concatenation of chunk sequences to concatenation of bytes |
| `Types.EncryptBytes` | pkcs11/types.py:248-249 | a byte string is passed to `_encrypt` as a one-element chunk sequence; the output chunks are joined, and an error from `_encrypt` is passed on |
| `Types.Encrypt` | pkcs11/types.py:239-252 | text and byte strings give one joined byte string, and chunk sequences give a stream. Text with no UTF-8 encoding raises `UnicodeEncodeError`. A byte string goes through `EncryptBytes`. A chunk sequence succeeds iff `_encrypt` does and returns its chunks unchanged |
| `Types.EncryptWithoutKeywords` | pkcs11/types.py:236-249 | `encrypt(b)` with no keyword arguments calls `_encrypt` on the one-chunk tuple with its defaults (`mechanism=None`, `mechanism_param=b''`) and returns the joined output |
| `Types.EncryptTextIsEncryptOfEncoding` | pkcs11/types.py:242-244 | encrypting text is encrypting its UTF-8 encoding |
| `Types.EncryptUnencodableText` | pkcs11/types.py:243-244 | text with a surrogate fails with `UnicodeEncodeError` whatever `_encrypt` would do |
| `Types.EncryptChunksPassThrough` | pkcs11/types.py:251-252 | a chunk sequence reaches `_encrypt` unchanged (no re-wrapping), and its output or error comes back unjoined |
| `Types.EncryptSingleShotIsJoinedStream` | pkcs11/types.py:246-252 | single-shot encryption of `b` succeeds iff streaming `[b]` does, and gives the join of the streamed chunks byte for byte |
| `Types.EncryptChunkingInvariant` | pkcs11/types.py:246-252 | if `_encrypt` transforms each chunk independently by a function that respects concatenation, the single-shot encryption of a message equals the join of streaming it in any chunking |
| `Types.JoinMapped` | pkcs11/types.py:249 | joining chunks mapped by a concatenation-respecting function is mapping the joined bytes |

## Left out

- `Slot.get_token`, `Slot.get_mechanisms`, `Token.open`, `Session.close`,
  `Session.generate_key`, `Object.destroy` and `EncryptMixin._encrypt` only raise
  `NotImplementedError` in `pkcs11/types.py`. Their real bodies live in the
  compiled `_pkcs11` extension, which is not part of this model. `_encrypt` and `close` appear only as uninterpreted
  function parameters. No default-mechanism or default-capability tables are modelled.
- The empty mixins `DecryptMixin`, `SignMixin`, `VerifyMixin`, `WrapMixin` and
  `UnwrapMixin` have no behaviour to model.
- `SlotFlag(flags)` and `TokenFlag(flags)`: these enumerations come from
  `pkcs11.constants`, which is not part of this model. The raw integer is kept, and
  the flags are taken to be present (what `SlotFlag(None)` does is decided in
  `pkcs11.constants`, not modelled).
- `Key.key_type` reads an attribute through `__getitem__`, which is a call into the
  token binding in the compiled `_pkcs11` extension, not modelled. `Object.__init__` and the
  `object_class` constants only store values and are not modelled.
- `__str__` and `__repr__` are presentation only.
- `self._lib` is only held by `Slot` to keep the library alive for the garbage
  collector. It has no effect on behaviour.
- Unrecognised keyword arguments (`**kwargs`) to `Slot` and `Token` are ignored.
  The raw record types therefore carry only the fields that are read.
- `Types.VersionArg`: a `CK_VERSION` dict with a missing key (a `KeyError`) is not
  modelled. The binding always supplies both fields.
- `Types.Encrypt`: only `str`, `bytes` and a sequence of byte strings are modelled
  as inputs. Other inputs are not: `bytearray`, `memoryview`, lazy generators, and a
  lazily produced output whose errors surface while it is iterated. Keyword arguments
  other than `mechanism` and `mechanism_param`, which `_encrypt` would reject,
  are not modelled either.
- `Types.Exit`: exception chaining (`__context__`) is not modelled, and neither
  are the position and message of a `UnicodeDecodeError`.
- The cryptography behind `_encrypt` and all token I/O are not modelled.
