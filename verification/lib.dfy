/** The functions of src/lib.rs around the `base64` crate: altchars
    validation, engine selection, alphabet-string construction, and the
    sizing, allocation, filtering and error flow of `b64encode` and
    `b64decode`. */
module Pyrsbase64 {
  import opened Bytes
  import opened Wrappers
  import opened Symbols
  import opened Crate
  import opened PermissiveFilter

  /** The `ValueError`s the functions raise, each with the text it carries. */
  datatype Error =
    | AltcharsLength
    | InvalidAltchars(shown: string)
    | SizeOverflow
    | EncodeFailed(detail: string)
    | DecodeFailed(detail: string)
  {
    function Message(): (s: string)
    {
      match this
      case AltcharsLength => "altchars must be a bytes-like object of length 2"
      case InvalidAltchars(shown) => "Invalid altchars: " + shown
      case SizeOverflow => "Integer overflow when calculating buffer size"
      case EncodeFailed(detail) => "Base64 encoding error: " + detail
      case DecodeFailed(detail) => "Base64 decoding error: " + detail
    }
  }

  /** The pair used when no altchars are given: `[b'+', b'/']`. */
  const DefaultPair: Pair := (43, 47)

  /** `validate_altchars`: the buffer must hold exactly two bytes. */
  function ValidateAltchars(altchars: seq<byte>): (r: Result<Pair, Error>)
    ensures r.Failure? <==> |altchars| != 2
    ensures r.Failure? ==> r.error == AltcharsLength
    ensures r.Success? ==> r.value == (altchars[0], altchars[1])
  {
    if |altchars| != 2 then Failure(AltcharsLength)
    else Success((altchars[0], altchars[1]))
  }

  /** The altchars as a `String`, each byte cast to a `char`. */
  function AltcharsText(alt: Pair): (s: string)
    ensures |s| == 2 && IsLatin1(s)
    ensures s[0] as int == alt.0 as int && s[1] as int == alt.1 as int
  {
    [ToChar(alt.0), ToChar(alt.1)]
  }

  /** The bytes of the string handed to `Alphabet::new`: the alphabet prefix
      followed by the altchars string, as UTF-8. That is the 62 fixed symbols,
      then the UTF-8 encoding of the first altchar, then that of the second. */
  function AlphabetText(alt: Pair): (t: seq<byte>)
    ensures |t| == 62 + |Utf8Char(ToChar(alt.0))| + |Utf8Char(ToChar(alt.1))|
    ensures forall i :: 0 <= i < 62 ==> t[i] as int == AlphabetPrefix[i] as int
    ensures t[62..] == Utf8Char(ToChar(alt.0)) + Utf8Char(ToChar(alt.1))
  {
    AlphabetPrefixMembers();
    HeadThenAltchars(AlphabetPrefix, alt);
    Utf8(AlphabetPrefix + AltcharsText(alt))
  }

  /** The altchars string encodes to the encoding of each altchar in turn. */
  lemma AltcharsTextUtf8(alt: Pair)
    ensures Utf8(AltcharsText(alt)) == Utf8Char(ToChar(alt.0)) + Utf8Char(ToChar(alt.1))
  {
    var tail := AltcharsText(alt);
    assert tail[1..] == [ToChar(alt.1)];
    assert Utf8([ToChar(alt.1)]) == Utf8Char(ToChar(alt.1)) + Utf8([]);
  }

  /** An ASCII head followed by the altchars string encodes to the head's
      bytes, then the encoding of each altchar. */
  lemma HeadThenAltchars(head: string, alt: Pair)
    requires IsAscii(head)
    ensures IsLatin1(head + AltcharsText(alt))
    ensures var t := Utf8(head + AltcharsText(alt));
            && |t| == |head| + |Utf8Char(ToChar(alt.0))| + |Utf8Char(ToChar(alt.1))|
            && (forall i :: 0 <= i < |head| ==> t[i] as int == head[i] as int)
            && t[|head|..] == Utf8Char(ToChar(alt.0)) + Utf8Char(ToChar(alt.1))
  {
    Utf8OfAscii(head);
    AltcharsTextUtf8(alt);
    Utf8Append(head, AltcharsText(alt));
    var h, tail := Utf8(head), Utf8Char(ToChar(alt.0)) + Utf8Char(ToChar(alt.1));
    assert Utf8(head + AltcharsText(alt)) == h + tail;
    assert (h + tail)[|head|..] == tail;
  }

  /** The alphabet text is 64 bytes long exactly when both altchars are
      ASCII, and then its last two bytes are the altchars themselves; an
      altchar of 0x80 or above takes two bytes. */
  lemma AlphabetTextLayout(alt: Pair)
    ensures |AlphabetText(alt)| == 64 <==> alt.0 < 0x80 && alt.1 < 0x80
    ensures alt.0 < 0x80 && alt.1 < 0x80 ==> AlphabetText(alt)[62] == alt.0 && AlphabetText(alt)[63] == alt.1
  {
  }

  /** `altchars_engine`: an engine for the alphabet text when `Alphabet::new`
      accepts it; otherwise an "Invalid altchars" error naming the altchars. */
  function AltcharsEngine(c: Crate, alt: Pair): (r: Result<Engine, Error>)
    ensures r.Success? <==> c.alphabetAccepts(AlphabetText(alt))
    ensures r.Success? ==> r.value == Custom(AlphabetText(alt))
    ensures r.Failure? ==> r.error.Message() == "Invalid altchars: " + AltcharsText(alt)
  {
    var text := AlphabetText(alt);
    if c.alphabetAccepts(text) then Success(Custom(text))
    else Failure(InvalidAltchars(AltcharsText(alt)))
  }

  /** `get_engine`: with no altchars, the pair `+`, `/` and the standard
      engine; with altchars, the validated pair and its engine, or the first
      error met. */
  function GetEngine(c: Crate, altchars: Option<seq<byte>>): (r: Result<(Pair, Engine), Error>)
    ensures altchars.None? ==> r == Success((DefaultPair, Standard))
    ensures altchars.Some? && |altchars.value| != 2 ==> r == Failure(AltcharsLength)
    ensures altchars.Some? && |altchars.value| == 2 ==>
              var alt := (altchars.value[0], altchars.value[1]);
              if c.alphabetAccepts(AlphabetText(alt)) then r == Success((alt, Custom(AlphabetText(alt))))
              else r == Failure(InvalidAltchars(AltcharsText(alt)))
  {
    match altchars
    case None => Success((DefaultPair, Standard))
    case Some(bytes) =>
      match ValidateAltchars(bytes)
      case Failure(e) => Failure(e)
      case Success(alt) =>
        match AltcharsEngine(c, alt)
        case Failure(e) => Failure(e)
        case Success(engine) => Success((alt, engine))
  }

  /** Passing `+/` explicitly selects the same pair as passing nothing, but
      not the ready-made engine: a custom engine is built from the 64-byte
      text that ends in `+` and `/`, if the crate accepts it. */
  lemma ExplicitDefaultPair(c: Crate)
    ensures |AlphabetText(DefaultPair)| == 64
    ensures AlphabetText(DefaultPair)[62] == 43 && AlphabetText(DefaultPair)[63] == 47
    ensures GetEngine(c, Some([43, 47])).Success? ==>
              GetEngine(c, Some([43, 47])).value == (DefaultPair, Custom(AlphabetText(DefaultPair)))
    ensures GetEngine(c, None).value == (DefaultPair, Standard)
  {
  }

  /** `n` zero bytes, what `vec![0u8; n]` holds. */
  function Zeros(n: nat): (z: seq<byte>)
    ensures |z| == n && forall i :: 0 <= i < n ==> z[i] == 0
  {
    seq(n, _ => 0)
  }

  /** What `b64encode` returns for the input bytes `s`. */
  function Encode(c: Crate, s: seq<byte>, altchars: Option<seq<byte>>): (r: Result<seq<byte>, Error>)
    requires KeepsSliceLength(c)
    ensures r.Success? ==> c.encodedLen(|s|, c.standardEncodePadding).Some?
                           && |r.value| == c.encodedLen(|s|, c.standardEncodePadding).value
    ensures r.Failure? ==> !r.error.DecodeFailed?
  {
    match GetEngine(c, altchars)
    case Failure(e) => Failure(e)
    case Success((_, engine)) =>
      match c.encodedLen(|s|, c.standardEncodePadding)
      case None => Failure(SizeOverflow)
      case Some(size) =>
        match c.encodeSlice(engine, s, Zeros(size))
        case Failure(e) => Failure(EncodeFailed(e))
        case Success(contents) => Success(contents)
  }

  /** `b64encode`: select the engine, size the output with `encoded_len` (an
      overflow is an error raised before anything is allocated), allocate a
      zeroed buffer of exactly that size, let the engine fill it, and return
      the whole buffer. */
  method B64Encode(c: Crate, s: seq<byte>, altchars: Option<seq<byte>>) returns (r: Result<seq<byte>, Error>)
    requires KeepsSliceLength(c)
    ensures r == Encode(c, s, altchars)
  {
    var selected := GetEngine(c, altchars);
    if selected.Failure? {
      return Failure(selected.error);
    }
    var engine := selected.value.1;
    var sized := c.encodedLen(|s|, c.standardEncodePadding);
    if sized.None? {
      return Failure(SizeOverflow);
    }
    var size := sized.value;
    var buf := new byte[size](_ => 0);
    assert buf[..] == Zeros(size);
    var written := c.encodeSlice(engine, s, buf[..]);
    if written.Failure? {
      return Failure(EncodeFailed(written.error));
    }
    var contents := written.value;
    forall i | 0 <= i < size {
      buf[i] := contents[i];
    }
    assert buf[..] == contents;
    r := Success(buf[..]);
  }

  /** The engine's verdict, with its error turned into a "Base64 decoding
      error". */
  function Surface(decoded: Result<seq<byte>, string>): (r: Result<seq<byte>, Error>)
    ensures decoded.Success? ==> r == Success(decoded.value)
    ensures decoded.Failure? ==> r == Failure(DecodeFailed(decoded.error))
  {
    match decoded
    case Success(bytes) => Success(bytes)
    case Failure(e) => Failure(DecodeFailed(e))
  }

  /** What `b64decode` returns for the input bytes `bytes`. */
  function Decode(c: Crate, bytes: seq<byte>, altchars: Option<seq<byte>>, validate: bool): (r: Result<seq<byte>, Error>)
    ensures GetEngine(c, altchars).Failure? ==> r == Failure(GetEngine(c, altchars).error)
    ensures r.Failure? ==> !r.error.SizeOverflow? && !r.error.EncodeFailed?
  {
    match GetEngine(c, altchars)
    case Failure(e) => Failure(e)
    case Success((alt, engine)) =>
      Surface(c.decode(engine, if validate then bytes else Retain(TableOf(alt), bytes)))
  }

  /** `b64decode`: select the engine; unless `validate`, keep only the bytes
      the permissive table marks valid; then decode. */
  method B64Decode(c: Crate, bytes: seq<byte>, altchars: Option<seq<byte>>, validate: bool)
    returns (r: Result<seq<byte>, Error>)
    ensures r == Decode(c, bytes, altchars, validate)
  {
    var selected := GetEngine(c, altchars);
    if selected.Failure? {
      return Failure(selected.error);
    }
    var (alt, engine) := selected.value;
    var decoded;
    if !validate {
      var valid := BuildTable(alt);
      var kept := FilterBytes(valid, bytes);
      decoded := c.decode(engine, kept);
    } else {
      decoded := c.decode(engine, bytes);
    }
    r := Surface(decoded);
  }

  /** An altchars error stops `b64encode` before sizing, with that error. */
  lemma EncodeAltcharsError(c: Crate, s: seq<byte>, altchars: Option<seq<byte>>)
    requires KeepsSliceLength(c)
    requires GetEngine(c, altchars).Failure?
    ensures Encode(c, s, altchars) == Failure(GetEngine(c, altchars).error)
  {
  }

  /** Once an engine is selected, `b64encode` reports the size overflow error
      exactly when `encoded_len` reports an overflow. */
  lemma EncodeOverflow(c: Crate, s: seq<byte>, altchars: Option<seq<byte>>)
    requires KeepsSliceLength(c)
    requires GetEngine(c, altchars).Success?
    ensures Encode(c, s, altchars) == Failure(SizeOverflow) <==> c.encodedLen(|s|, c.standardEncodePadding).None?
  {
  }

  /** A successful encode returns a buffer of exactly the size `encoded_len`
      computed, holding what the engine left in the zeroed buffer of that
      size. */
  lemma EncodeBufferSize(c: Crate, s: seq<byte>, altchars: Option<seq<byte>>)
    requires KeepsSliceLength(c)
    requires Encode(c, s, altchars).Success?
    ensures GetEngine(c, altchars).Success?
    ensures c.encodedLen(|s|, c.standardEncodePadding).Some?
    ensures |Encode(c, s, altchars).value| == c.encodedLen(|s|, c.standardEncodePadding).value
    ensures var out := Encode(c, s, altchars).value;
            var size := c.encodedLen(|s|, c.standardEncodePadding).value;
            var engine := GetEngine(c, altchars).value.1;
            c.encodeSlice(engine, s, Zeros(size)) == Success(out)
  {
  }

  /** An engine error is raised as an encoding error, never returned as
      partial output. */
  lemma EncodeSurfacesEngineError(c: Crate, s: seq<byte>, altchars: Option<seq<byte>>)
    requires KeepsSliceLength(c)
    requires GetEngine(c, altchars).Success?
    requires c.encodedLen(|s|, c.standardEncodePadding).Some?
    requires c.encodeSlice(GetEngine(c, altchars).value.1, s, Zeros(c.encodedLen(|s|, c.standardEncodePadding).value)).Failure?
    ensures Encode(c, s, altchars)
         == Failure(EncodeFailed(c.encodeSlice(GetEngine(c, altchars).value.1, s,
                                               Zeros(c.encodedLen(|s|, c.standardEncodePadding).value)).error))
  {
  }

  /** The output size does not depend on the altchars: it is computed with the
      standard engine's padding setting whatever engine encodes. */
  lemma EncodeSizeIgnoresAltchars(c: Crate, s: seq<byte>, a1: Option<seq<byte>>, a2: Option<seq<byte>>)
    requires KeepsSliceLength(c)
    requires Encode(c, s, a1).Success? && Encode(c, s, a2).Success?
    ensures |Encode(c, s, a1).value| == |Encode(c, s, a2).value|
  {
  }

  /** With `validate`, the engine decodes the input bytes untouched. */
  lemma DecodeStrictPassesInput(c: Crate, bytes: seq<byte>, altchars: Option<seq<byte>>)
    requires GetEngine(c, altchars).Success?
    ensures Decode(c, bytes, altchars, true) == Surface(c.decode(GetEngine(c, altchars).value.1, bytes))
  {
  }

  /** Without `validate`, the engine decodes the order-preserving subsequence
      of the input made of the permitted bytes: nothing else, every permitted
      byte as often as it occurs, and never more bytes than the input. */
  lemma DecodePermissiveInput(c: Crate, bytes: seq<byte>, altchars: Option<seq<byte>>)
    requires GetEngine(c, altchars).Success?
    ensures var (alt, engine) := GetEngine(c, altchars).value;
            var kept := Retain(TableOf(alt), bytes);
            && Decode(c, bytes, altchars, false) == Surface(c.decode(engine, kept))
            && IsSubsequence(kept, bytes)
            && |kept| <= |bytes|
            && (forall k :: 0 <= k < |kept| ==> Permitted(alt, kept[k]))
            && (forall b: byte :: multiset(kept)[b] == if Permitted(alt, b) then multiset(bytes)[b] else 0)
  {
    var (alt, engine) := GetEngine(c, altchars).value;
    var valid := TableOf(alt);
    var kept := Retain(valid, bytes);
    RetainIsSubsequence(valid, bytes);
    forall b: byte
      ensures multiset(kept)[b] == if Permitted(alt, b) then multiset(bytes)[b] else 0
    {
      RetainCounts(valid, bytes, b);
    }
  }

  /** Bytes the permissive table rejects, inserted anywhere, do not change
      what a permissive decode returns. */
  lemma DecodeIgnoresNoise(c: Crate, a: seq<byte>, noise: seq<byte>, b: seq<byte>, altchars: Option<seq<byte>>)
    requires GetEngine(c, altchars).Success?
    requires forall k :: 0 <= k < |noise| ==> !Permitted(GetEngine(c, altchars).value.0, noise[k])
    ensures Decode(c, a + noise + b, altchars, false) == Decode(c, a + b, altchars, false)
  {
    RetainIgnoresNoise(TableOf(GetEngine(c, altchars).value.0), a, noise, b);
  }

  /** Filtering the input beforehand changes nothing: the filter is idempotent. */
  lemma DecodePrefilteredInput(c: Crate, bytes: seq<byte>, altchars: Option<seq<byte>>)
    requires GetEngine(c, altchars).Success?
    ensures var alt := GetEngine(c, altchars).value.0;
            Decode(c, Retain(TableOf(alt), bytes), altchars, false) == Decode(c, bytes, altchars, false)
  {
    RetainIdempotent(TableOf(GetEngine(c, altchars).value.0), bytes);
  }

  /** On input made only of permitted bytes the two modes agree. */
  lemma DecodeModesAgreeOnCleanInput(c: Crate, bytes: seq<byte>, altchars: Option<seq<byte>>)
    requires GetEngine(c, altchars).Success?
    requires forall k :: 0 <= k < |bytes| ==> Permitted(GetEngine(c, altchars).value.0, bytes[k])
    ensures Decode(c, bytes, altchars, false) == Decode(c, bytes, altchars, true)
  {
    RetainAllValid(TableOf(GetEngine(c, altchars).value.0), bytes);
  }
}
