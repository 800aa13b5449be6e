/**
  The high-level PKCS#11 object model of `pkcs11/types.py`: decoding of the
  fixed-width text and version fields of the token's info records, the `Slot`,
  `Token` and `Session` records built from them, and the input normalisation of
  `EncryptMixin.encrypt` in front of the raw chunked `_encrypt`.
 */
module Types {
  import opened Wrappers
  import opened Utf8
  import opened Whitespace

  /** The exceptions the modelled code raises or lets through. */
  datatype Error =
    | UnicodeDecodeError   // `bytes.decode('utf-8')` met ill-formed input
    | UnicodeEncodeError   // `str.encode('utf-8')` met a lone surrogate
    | TypeError            // a raw field was `None`
    | Raised(code: nat)    // raised by a collaborator (the token binding, a stub)

  // ---------------------------------------------------------------------------
  // CK_UTF8CHAR fields

  /** The number of leading bytes of a `CK_UTF8CHAR` field that are decoded, whatever the field's width. */
  const Utf8CharLimit: nat := 31

  /** `data[:31]`: Python's slice keeps the whole of a shorter input. */
  function Kept(data: seq<Byte>): (k: seq<Byte>)
    ensures k <= data
    ensures |k| == if |data| < Utf8CharLimit then |data| else Utf8CharLimit
  {
    data[..if |data| < Utf8CharLimit then |data| else Utf8CharLimit]
  }

  /**
    `_CK_UTF8CHAR_to_str`: the first 31 bytes decoded as UTF-8, trailing
    whitespace stripped. Ill-formed UTF-8 among the kept bytes raises.
   */
  function Utf8CharToStr(data: seq<Byte>): (r: Result<UString, Error>)
    ensures r.Success? <==> WellFormed(Kept(data))
    ensures r.Failure? ==> r.error == UnicodeDecodeError
    ensures r.Success? ==> Decode(Kept(data)).Some? && IsRStripOf(r.value, Decode(Kept(data)).value)
    ensures r.Success? ==> AllScalar(r.value) && Encode(r.value) <= data && |Encode(r.value)| <= Utf8CharLimit
  {
    var kept := Kept(data);
    DecodeAcceptsWellFormed(kept);
    match Decode(kept)
    case None => Failure(UnicodeDecodeError)
    case Some(s) =>
      StrippedEncodingIsPrefix(kept);
      Success(RStrip(s))
  }

  /** The encoding of a stripped decoding is a prefix of the decoded bytes. */
  lemma StrippedEncodingIsPrefix(bs: seq<Byte>)
    requires Decode(bs).Some?
    ensures Encode(RStrip(Decode(bs).value)) <= bs
  {
    var s := Decode(bs).value;
    var t := RStrip(s);
    assert s[..|t|] == t;
    EncodePrefix(s, |t|);
    DecodeEncode(bs);
  }

  /** Only the first 31 bytes are read: whatever follows them does not matter. */
  lemma Utf8CharToStrReadsFirst31(data: seq<Byte>, extra: seq<Byte>)
    requires |data| >= Utf8CharLimit
    ensures Utf8CharToStr(data + extra) == Utf8CharToStr(data)
  {
    assert (data + extra)[..Utf8CharLimit] == data[..Utf8CharLimit];
  }

  /** A field of at most 31 bytes is decoded whole. */
  lemma Utf8CharToStrShortField(data: seq<Byte>)
    requires |data| <= Utf8CharLimit
    ensures Utf8CharToStr(data).Success? <==> Decode(data).Some?
    ensures Utf8CharToStr(data).Success? ==> Utf8CharToStr(data).value == RStrip(Decode(data).value)
  {
    assert Kept(data) == data;
    if Utf8CharToStr(data).Success? {
      RStripUnique(Utf8CharToStr(data).value, Decode(data).value);
    }
  }

  /**
    On a field that is well-formed UTF-8 beyond byte 31, decoding fails exactly
    when the cut after byte 31 splits a multi-byte sequence.
   */
  lemma Utf8CharToStrSplitSequence(data: seq<Byte>)
    requires Decode(data).Some? && |data| > Utf8CharLimit
    ensures Utf8CharToStr(data).Failure? <==> IsTail(data[Utf8CharLimit])
  {
    CutDecodes(data, Utf8CharLimit);
    DecodeAcceptsWellFormed(Kept(data));
  }

  /** A decoded string is a fixed point: stripping it again, or decoding its encoding again, gives it back. */
  lemma Utf8CharToStrStable(data: seq<Byte>)
    requires Utf8CharToStr(data).Success?
    ensures RStrip(Utf8CharToStr(data).value) == Utf8CharToStr(data).value
    ensures Utf8CharToStr(Encode(Utf8CharToStr(data).value)) == Utf8CharToStr(data)
  {
    var s := Utf8CharToStr(data).value;
    RStripIdempotent(s);
    RStripUnique(s, s);
    assert Kept(Encode(s)) == Encode(s);
    EncodeDecodes(s);
    Utf8CharToStrShortField(Encode(s));
  }

  /** `n` blank (0x20) bytes, the padding PKCS#11 puts after the text of a fixed-width field. */
  function Blanks(n: nat): (b: seq<Byte>)
    ensures |b| == n && forall i :: 0 <= i < n ==> b[i] == 0x20
  {
    seq(n, _ => 0x20)
  }

  /** Each byte taken as the code point of the same value. */
  function Widen(bs: seq<Byte>): (s: UString)
    ensures |s| == |bs| && forall i :: 0 <= i < |bs| ==> s[i] == bs[i]
  {
    seq(|bs|, i requires 0 <= i < |bs| => bs[i])
  }

  /** Bytes below 0x80 decode one by one to the code points of the same value. */
  lemma {:induction false} DecodeAscii(bs: seq<Byte>)
    requires forall i :: 0 <= i < |bs| ==> bs[i] < 0x80
    ensures Decode(bs) == Some(Widen(bs))
    decreases |bs|
  {
    if bs == [] {
      assert Widen(bs) == [];
    } else {
      var u := bs[..1];
      assert u == [bs[0]] && Width(bs[0]) == 1 && WellFormedChar(u) && CharValue(u) == bs[0];
      DecodeAscii(bs[1..]);
      assert Decode(bs) == Some([bs[0]] + Widen(bs[1..]));
      assert [bs[0]] + Widen(bs[1..]) == Widen(bs);
    }
  }

  /**
    A field holding the encoding of `s` in at most 31 bytes followed by any
    number of blanks decodes to `s` with its trailing whitespace stripped.
   */
  lemma Utf8CharToStrPaddedField(s: UString, n: nat)
    requires AllScalar(s)
    requires |Encode(s)| <= Utf8CharLimit
    ensures Utf8CharToStr(Encode(s) + Blanks(n)) == Success(RStrip(s))
  {
    var e := Encode(s);
    EncodeDecodes(s);
    var field := e + Blanks(n);
    var m := if |field| < Utf8CharLimit then n else Utf8CharLimit - |e|;
    var pad := Blanks(m);
    assert Kept(field) == e + pad;
    DecodeAscii(pad);
    var w := Widen(pad);
    assert AllWhitespace(w);
    DecodeAppend(e, pad);
    RStripAppendWhitespace(s, w);
  }

  /**
    The 31-byte cap ignores the declared width: an ASCII field of 32 or more
    bytes loses everything from byte 31 on, even when it is not padding.
    What is left is its first 31 characters, stripped; when the 31st is not
    whitespace they are kept whole.
   */
  lemma Utf8CharToStrAsciiCut(data: seq<Byte>)
    requires |data| > Utf8CharLimit
    requires forall i :: 0 <= i < |data| ==> data[i] < 0x80
    ensures Utf8CharToStr(data) == Success(RStrip(Widen(data[..Utf8CharLimit])))
    ensures !IsWhitespace(data[Utf8CharLimit - 1]) ==> Utf8CharToStr(data) == Success(Widen(data[..Utf8CharLimit]))
  {
    var kept := Kept(data);
    DecodeAscii(kept);
    RStripUnique(Utf8CharToStr(data).value, Widen(kept));
    if !IsWhitespace(data[Utf8CharLimit - 1]) {
      RStripUnique(Widen(kept), Widen(kept));
    }
  }

  // ---------------------------------------------------------------------------
  // CK_VERSION

  /** A `CK_VERSION` record: two `CK_BYTE` fields. */
  datatype CkVersion = CkVersion(major: Byte, minor: Byte)

  /** `_CK_VERSION_to_tuple`: the pair (major, minor), in that order. */
  function VersionToTuple(v: CkVersion): (t: (Byte, Byte))
    ensures t.0 == v.major && t.1 == v.minor
  {
    (v.major, v.minor)
  }

  /** The pair loses nothing: distinct versions give distinct pairs. */
  lemma VersionToTupleInjective(v: CkVersion, w: CkVersion)
    ensures VersionToTuple(v) == VersionToTuple(w) <==> v == w
  {
  }

  // ---------------------------------------------------------------------------
  // Slot and Token

  /** The decoder applied to an argument that may be `None`; slicing `None` raises `TypeError`. */
  function Utf8CharArg(data: Option<seq<Byte>>): (r: Result<UString, Error>)
    ensures data.None? ==> r == Failure(TypeError)
    ensures data.Some? ==> r == Utf8CharToStr(data.value)
  {
    match data
    case None => Failure(TypeError)
    case Some(d) => Utf8CharToStr(d)
  }

  /** The version converter applied to an argument that may be `None`; indexing `None` raises `TypeError`. */
  function VersionArg(v: Option<CkVersion>): (r: Result<(Byte, Byte), Error>)
    ensures v.None? ==> r == Failure(TypeError)
    ensures v.Some? ==> r == Success(VersionToTuple(v.value))
  {
    match v
    case None => Failure(TypeError)
    case Some(x) => Success(VersionToTuple(x))
  }

  /** The keyword arguments `Slot.__init__` reads from a `CK_SLOT_INFO`; each defaults to `None`. */
  datatype RawSlotInfo = RawSlotInfo(
    slotDescription: Option<seq<Byte>>,
    manufacturerId: Option<seq<Byte>>,
    hardwareVersion: Option<CkVersion>,
    firmwareVersion: Option<CkVersion>,
    flags: nat)

  /** A slot: its decoded fields, fixed once built. */
  datatype Slot = Slot(
    slotId: nat,
    slotDescription: UString,
    manufacturerId: UString,
    hardwareVersion: (Byte, Byte),
    firmwareVersion: (Byte, Byte),
    flags: nat)

  /**
    `Slot.__init__`: the fields are decoded in the order the source assigns
    them, and the first one that raises ends construction.
   */
  function NewSlot(slotId: nat, raw: RawSlotInfo): (r: Result<Slot, Error>)
    ensures r.Success? <==>
      && raw.slotDescription.Some? && Utf8CharToStr(raw.slotDescription.value).Success?
      && raw.manufacturerId.Some? && Utf8CharToStr(raw.manufacturerId.value).Success?
      && raw.hardwareVersion.Some? && raw.firmwareVersion.Some?
    ensures r.Success? ==>
      && r.value.slotId == slotId
      && r.value.slotDescription == Utf8CharToStr(raw.slotDescription.value).value
      && r.value.manufacturerId == Utf8CharToStr(raw.manufacturerId.value).value
      && r.value.hardwareVersion == VersionToTuple(raw.hardwareVersion.value)
      && r.value.firmwareVersion == VersionToTuple(raw.firmwareVersion.value)
      && r.value.flags == raw.flags
    ensures r.Failure? ==> r.error == TypeError || r.error == UnicodeDecodeError
    ensures raw.slotDescription.None? ==> r == Failure(TypeError)
    ensures raw.slotDescription.Some? && Utf8CharToStr(raw.slotDescription.value).Failure? ==>
      r == Failure(UnicodeDecodeError)
    ensures raw.slotDescription.Some? && Utf8CharToStr(raw.slotDescription.value).Success? ==>
      && (raw.manufacturerId.None? ==> r == Failure(TypeError))
      && (raw.manufacturerId.Some? && Utf8CharToStr(raw.manufacturerId.value).Failure? ==>
            r == Failure(UnicodeDecodeError))
      && (raw.manufacturerId.Some? && Utf8CharToStr(raw.manufacturerId.value).Success? ==>
            && (raw.hardwareVersion.None? ==> r == Failure(TypeError))
            && (raw.hardwareVersion.Some? && raw.firmwareVersion.None? ==> r == Failure(TypeError)))
  {
    var description :- Utf8CharArg(raw.slotDescription);
    var manufacturer :- Utf8CharArg(raw.manufacturerId);
    var hardware :- VersionArg(raw.hardwareVersion);
    var firmware :- VersionArg(raw.firmwareVersion);
    Success(Slot(slotId, description, manufacturer, hardware, firmware, raw.flags))
  }

  /** A built slot's text fields end in no whitespace and encode to at most 31 bytes of the raw fields. */
  lemma SlotTextFields(slotId: nat, raw: RawSlotInfo)
    requires NewSlot(slotId, raw).Success?
    ensures NoTrailingWhitespace(NewSlot(slotId, raw).value.slotDescription)
    ensures NoTrailingWhitespace(NewSlot(slotId, raw).value.manufacturerId)
    ensures Encode(NewSlot(slotId, raw).value.slotDescription) <= Kept(raw.slotDescription.value)
    ensures Encode(NewSlot(slotId, raw).value.manufacturerId) <= Kept(raw.manufacturerId.value)
  {
  }

  /** The keyword arguments `Token.__init__` reads from a `CK_TOKEN_INFO`; each defaults to `None`. */
  datatype RawTokenInfo = RawTokenInfo(rawLabel: Option<seq<Byte>>, serial: Option<seq<Byte>>, flags: nat)

  datatype Token = Token(slot: Slot, tokenLabel: UString, serial: Option<seq<Byte>>, flags: nat)

  /** `Token.__init__`: only the label is decoded; the serial number is kept as given. */
  function NewToken(slot: Slot, raw: RawTokenInfo): (r: Result<Token, Error>)
    ensures r.Success? <==> raw.rawLabel.Some? && Utf8CharToStr(raw.rawLabel.value).Success?
    ensures r.Success? ==>
      && r.value.slot == slot
      && r.value.tokenLabel == Utf8CharToStr(raw.rawLabel.value).value
      && r.value.serial == raw.serial
      && r.value.flags == raw.flags
    ensures r.Failure? ==> r.error == if raw.rawLabel.None? then TypeError else UnicodeDecodeError
  {
    var decoded :- Utf8CharArg(raw.rawLabel);
    Success(Token(slot, decoded, raw.serial, raw.flags))
  }

  // ---------------------------------------------------------------------------
  // Session

  datatype UserType = Nobody | User | SecurityOfficer

  /** A session on a token, with its opaque handle, read/write mode and logged-in user type. */
  datatype Session = Session(token: Token, handle: nat, rw: bool, userType: UserType)

  /** `Session.__init__`: a read-only session with no user logged in unless told otherwise. */
  function NewSession(token: Token, handle: nat, rw: bool := false, userType: UserType := Nobody): (s: Session)
    ensures s.token == token && s.handle == handle && s.rw == rw && s.userType == userType
  {
    Session(token, handle, rw, userType)
  }

  /** Left to its defaults, a new session is read-only and has no user logged in. */
  lemma NewSessionDefaults(token: Token, handle: nat)
    ensures !NewSession(token, handle).rw && NewSession(token, handle).userType == Nobody
    ensures NewSession(token, handle) == NewSession(token, handle, false, Nobody)
  {
  }

  /** `Session.__enter__`: the target of `with token.open() as s` is the session itself. */
  function Enter(s: Session): (r: Session)
    ensures r == s
  {
    s
  }

  /**
    Leaving a `with` block: `__exit__` calls `close()` and returns `None`, so the
    exception that ended the block (`pending`) is never suppressed, and one
    raised by `close()` replaces it.
   */
  function Exit(s: Session, pending: Option<Error>, close: Session -> Option<Error>): (r: Option<Error>)
    ensures close(s).Some? ==> r == close(s)
    ensures close(s).None? ==> r == pending
  {
    match close(s)
    case Some(e) => Some(e)
    case None => pending
  }

  /** A `with` block ends without an exception exactly when its body and `close()` both succeed. */
  lemma ExitNeverSuppresses(s: Session, pending: Option<Error>, close: Session -> Option<Error>)
    ensures Exit(s, pending, close).None? <==> pending.None? && close(s).None?
  {
  }

  // ---------------------------------------------------------------------------
  // EncryptMixin.encrypt

  /** The keyword arguments forwarded to `_encrypt`. */
  datatype Params = Params(mechanism: Option<nat>, mechanismParam: seq<Byte>)

  /** `_encrypt`'s defaults: no mechanism override and an empty parameter. */
  const DefaultParams := Params(None, [])

  /** What `encrypt` is given: text, one byte string, or an iterable of byte chunks. */
  datatype Plaintext = Text(text: UString) | Bytes(bytes: seq<Byte>) | Chunks(chunks: seq<seq<Byte>>)

  /** What `encrypt` returns: one byte string, or the chunks `_encrypt` produced. */
  datatype Ciphertext = Joined(bytes: seq<Byte>) | Stream(chunks: seq<seq<Byte>>)

  /** The raw chunked operation supplied by the token binding. */
  type RawEncrypt = (seq<seq<Byte>>, Params) -> Result<seq<seq<Byte>>, Error>

  /** `b''.join(chunks)` */
  function Join(chunks: seq<seq<Byte>>): (r: seq<Byte>)
    ensures |chunks| == 1 ==> r == chunks[0]
    ensures chunks == [] ==> r == []
  {
    if chunks == [] then [] else chunks[0] + Join(chunks[1..])
  }

  /** Joining is a homomorphism from chunk-sequence concatenation to byte concatenation. */
  lemma {:induction false} JoinAppend(a: seq<seq<Byte>>, b: seq<seq<Byte>>)
    ensures Join(a + b) == Join(a) + Join(b)
  {
    if a == [] {
      assert a + b == b;
    } else {
      assert (a + b)[1..] == a[1..] + b;
      JoinAppend(a[1..], b);
    }
  }

  /** A single byte string: wrapped as one chunk, encrypted, and the output chunks joined. */
  function EncryptBytes(raw: RawEncrypt, data: seq<Byte>, params: Params := DefaultParams): (r: Result<Ciphertext, Error>)
    ensures r.Success? <==> raw([data], params).Success?
    ensures r.Success? ==> r.value == Joined(Join(raw([data], params).value))
    ensures r.Failure? ==> r.error == raw([data], params).error
  {
    var out :- raw([data], params);
    Success(Joined(Join(out)))
  }

  /** `EncryptMixin.encrypt`; with no keyword arguments `_encrypt` gets its own defaults. */
  function Encrypt(raw: RawEncrypt, data: Plaintext, params: Params := DefaultParams): (r: Result<Ciphertext, Error>)
    ensures r.Success? ==> (r.value.Joined? <==> !data.Chunks?)
    ensures data.Text? && !AllScalar(data.text) ==> r == Failure(UnicodeEncodeError)
    ensures data.Bytes? ==> r == EncryptBytes(raw, data.bytes, params)
    ensures data.Chunks? ==> (r.Success? <==> raw(data.chunks, params).Success?)
    ensures data.Chunks? && r.Success? ==> r.value.chunks == raw(data.chunks, params).value
  {
    match data
    case Text(s) =>
      (match EncodeText(s)
       case None => Failure(UnicodeEncodeError)
       case Some(b) => EncryptBytes(raw, b, params))
    case Bytes(b) => EncryptBytes(raw, b, params)
    case Chunks(cs) =>
      var out :- raw(cs, params);
      Success(Stream(out))
  }

  /** `encrypt(b)` with no keyword arguments hands `_encrypt` the one-chunk tuple and its default parameters. */
  lemma EncryptWithoutKeywords(raw: RawEncrypt, b: seq<Byte>)
    ensures Encrypt(raw, Bytes(b)).Success? <==> raw([b], Params(None, [])).Success?
    ensures Encrypt(raw, Bytes(b)).Success? ==> Encrypt(raw, Bytes(b)).value == Joined(Join(raw([b], Params(None, [])).value))
  {
  }

  /** Text is encrypted as its UTF-8 encoding. */
  lemma EncryptTextIsEncryptOfEncoding(raw: RawEncrypt, s: UString, params: Params)
    requires AllScalar(s)
    ensures Encrypt(raw, Text(s), params) == Encrypt(raw, Bytes(Encode(s)), params)
  {
  }

  /** Text that has no UTF-8 encoding fails the same way whatever the raw operation does. */
  lemma EncryptUnencodableText(raw: RawEncrypt, other: RawEncrypt, s: UString, params: Params)
    requires !AllScalar(s)
    ensures Encrypt(raw, Text(s), params) == Encrypt(other, Text(s), params) == Failure(UnicodeEncodeError)
  {
  }

  /** Chunked input reaches the raw operation unchanged, and its output comes back unjoined. */
  lemma EncryptChunksPassThrough(raw: RawEncrypt, cs: seq<seq<Byte>>, params: Params)
    ensures raw(cs, params).Success? ==> Encrypt(raw, Chunks(cs), params) == Success(Stream(raw(cs, params).value))
    ensures raw(cs, params).Failure? ==> Encrypt(raw, Chunks(cs), params) == Failure(raw(cs, params).error)
  {
  }

  /**
    Single-shot and one-chunk streaming agree byte for byte: encrypting a byte
    string gives the join of what streaming it as a single chunk gives.
   */
  lemma EncryptSingleShotIsJoinedStream(raw: RawEncrypt, b: seq<Byte>, params: Params)
    ensures Encrypt(raw, Bytes(b), params).Success? <==> Encrypt(raw, Chunks([b]), params).Success?
    ensures Encrypt(raw, Bytes(b), params).Success? ==>
      Encrypt(raw, Bytes(b), params).value.bytes == Join(Encrypt(raw, Chunks([b]), params).value.chunks)
  {
  }

  /**
    When the raw operation maps chunks one to one (each output chunk depends on
    its input chunk alone), the single-shot result of a whole message equals the
    join of streaming it in any chunking.
   */
  lemma {:induction false} EncryptChunkingInvariant(raw: RawEncrypt, f: seq<Byte> -> seq<Byte>, cs: seq<seq<Byte>>, params: Params)
    requires forall xs :: raw(xs, params) == Success(seq(|xs|, i requires 0 <= i < |xs| => f(xs[i])))
    requires forall a, b :: f(a + b) == f(a) + f(b)
    ensures Encrypt(raw, Bytes(Join(cs)), params).Success?
    ensures Encrypt(raw, Chunks(cs), params).Success?
    ensures Encrypt(raw, Bytes(Join(cs)), params).value.bytes == Join(Encrypt(raw, Chunks(cs), params).value.chunks)
    decreases |cs|
  {
    var out := seq(|cs|, i requires 0 <= i < |cs| => f(cs[i]));
    assert raw(cs, params) == Success(out);
    var whole := [Join(cs)];
    assert seq(|whole|, i requires 0 <= i < |whole| => f(whole[i])) == [f(Join(cs))];
    assert raw(whole, params) == Success([f(Join(cs))]);
    JoinMapped(f, cs);
  }

  /** Joining after mapping an append-preserving function is mapping after joining. */
  lemma {:induction false} JoinMapped(f: seq<Byte> -> seq<Byte>, cs: seq<seq<Byte>>)
    requires forall a, b :: f(a + b) == f(a) + f(b)
    ensures Join(seq(|cs|, i requires 0 <= i < |cs| => f(cs[i]))) == f(Join(cs))
    decreases |cs|
  {
    var mapped := seq(|cs|, i requires 0 <= i < |cs| => f(cs[i]));
    if cs == [] {
      assert f([]) == f([] + []) == f([]) + f([]);
    } else {
      JoinMapped(f, cs[1..]);
      assert mapped[1..] == seq(|cs[1..]|, i requires 0 <= i < |cs[1..]| => f(cs[1..][i]));
    }
  }
}
