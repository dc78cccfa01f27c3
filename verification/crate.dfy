/** The part of the external `base64` crate that src/lib.rs calls. Its
    behaviour is not part of this model: each call is a field of a `Crate`
    value, an arbitrary total function with the result and error shape of the
    crate's signature, and every property proved here holds for every choice
    of those functions. */
module Crate {
  import opened Bytes
  import opened Wrappers

  /** The engine a transform runs with: the crate's ready-made `STANDARD`
      engine, or `GeneralPurpose::new(&alphabet, PAD)` for the alphabet that
      `Alphabet::new` accepted from the given text. */
  datatype Engine =
    | Standard
    | Custom(alphabetText: seq<byte>)

  /** The crate calls, with errors given by the text their `Display` shows:
      - `alphabetAccepts(text)`: whether `Alphabet::new` returns `Ok` for the
        string whose bytes are `text`;
      - `standardEncodePadding`: `STANDARD.config().encode_padding()`;
      - `encodedLen(n, padding)`: `encoded_len`, `None` on overflow;
      - `encodeSlice(engine, input, buf)`: `encode_slice` into the slice whose
        contents are `buf`, giving that slice's contents afterwards;
      - `decode(engine, input)`: `Engine::decode`. */
  datatype Crate = Crate(
    alphabetAccepts: seq<byte> -> bool,
    standardEncodePadding: bool,
    encodedLen: (nat, bool) -> Option<nat>,
    encodeSlice: (Engine, seq<byte>, seq<byte>) -> Result<seq<byte>, string>,
    decode: (Engine, seq<byte>) -> Result<seq<byte>, string>
  )

  /** What Rust's `&mut [u8]` guarantees of `encode_slice`: it may change the
      bytes of the slice it is given, but not the slice's length. */
  ghost predicate KeepsSliceLength(c: Crate)
  {
    forall e, input, buf :: c.encodeSlice(e, input, buf).Success? ==> |c.encodeSlice(e, input, buf).value| == |buf|
  }
}
