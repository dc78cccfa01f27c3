/** The `Altchars` value type of src/altchars.rs: the pair of bytes that stand
    in for `+` and `/` in a Base64 alphabet. */
module Altchars {
  import opened Bytes
  import opened Wrappers

  /** An immutable, copyable pair (plus substitute, slash substitute); equality
      is component-wise, as the derived `PartialEq` gives. */
  datatype Altchars = Altchars(pair: (byte, byte))
  {
    /** `Altchars::new`. */
    static function New(plus: byte, slash: byte): (a: Altchars)
      ensures a.Plus() == plus && a.Slash() == slash
    {
      Altchars((plus, slash))
    }

    /** The altchars of standard Base64; the same value as `New('+', '/')`. */
    static function Default(): (a: Altchars)
      ensures a == New('+' as int as byte, '/' as int as byte)
      ensures a.Display() == "+/"
    {
      Altchars((43, 47))
    }

    /** The substitute for `+`. */
    function Plus(): (b: byte)
    {
      pair.0
    }

    /** The substitute for `/`. */
    function Slash(): (b: byte)
    {
      pair.1
    }

    /** `Display::fmt`: the plus substitute, then the slash substitute, each
        cast to the character with that code point. */
    function Display(): (s: string)
      ensures |s| == 2
      ensures s[0] as int == Plus() as int && s[1] as int == Slash() as int
    {
      [ToChar(pair.0), ToChar(pair.1)]
    }
  }

  /** The one way extraction can fail. */
  datatype ExtractError = WrongLength
  {
    function Message(): (s: string)
    {
      "altchars must be exactly 2 bytes long"
    }
  }

  /** The length check of `extract_bound`, applied to the bytes the caller's
      buffer holds. */
  function ExtractBound(bytes: seq<byte>): (r: Result<Altchars, ExtractError>)
    ensures r.Success? <==> |bytes| == 2
    ensures r.Success? ==> r.value == Altchars.New(bytes[0], bytes[1])
  {
    if |bytes| != 2 then Failure(WrongLength)
    else Success(Altchars.New(bytes[0], bytes[1]))
  }

  /** Two pairs built by `New` are equal exactly when both components are. */
  lemma NewInjective(p: byte, s: byte, p': byte, s': byte)
    ensures Altchars.New(p, s) == Altchars.New(p', s') <==> p == p' && s == s'
  {
  }

  /** Extracting the two bytes of a pair gives the pair back. */
  lemma ExtractRoundTrip(a: Altchars)
    ensures ExtractBound([a.Plus(), a.Slash()]) == Success(a)
  {
  }

  /** Distinct pairs are displayed differently, so the text names the pair. */
  lemma DisplayInjective(a: Altchars, b: Altchars)
    ensures a.Display() == b.Display() <==> a == b
  {
  }
}
