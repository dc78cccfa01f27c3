/** The two fixed symbol strings of src/lib.rs: the 62 alphanumerics that open
    every custom alphabet (line 12) and the 63 bytes that the permissive decoder
    always accepts (line 112), with the character classes they consist of. */
module Symbols {
  import opened Bytes

  /** The fixed head of every alphabet built from altchars. */
  const AlphabetPrefix: string := "ABCDEFGHIJKLMNOPQRSTUVWXYZabcdefghijklmnopqrstuvwxyz0123456789"

  /** The bytes marked valid in the permissive-decode table before the altchars. */
  const PermissiveSymbols: string := "ABCDEFGHIJKLMNOPQRSTUVWXYZabcdefghijklmnopqrstuvwxyz0123456789="

  /** The `n` consecutive characters starting at `lo`. */
  function CharRange(lo: char, n: nat): (r: string)
    requires lo as int + n < 0xD800
    ensures |r| == n
    ensures forall i :: 0 <= i < n ==> r[i] as int == lo as int + i
  {
    seq(n, i requires 0 <= i < n => (lo as int + i) as char)
  }

  /** A range holds exactly the characters from `lo` up to, not including, `lo + n`. */
  lemma CharRangeMembers(lo: char, n: nat)
    requires lo as int + n < 0xD800
    ensures forall c :: c in CharRange(lo, n) <==> lo <= c && c as int < lo as int + n
  {
    var r := CharRange(lo, n);
    forall c | lo <= c && c as int < lo as int + n
      ensures c in r
    {
      assert r[c as int - lo as int] == c;
    }
  }

  lemma UpperLetters() ensures CharRange('A', 26) == "ABCDEFGHIJKLMNOPQRSTUVWXYZ" { }

  lemma LowerLetters() ensures CharRange('a', 26) == "abcdefghijklmnopqrstuvwxyz" { }

  lemma Digits() ensures CharRange('0', 10) == "0123456789" { }

  lemma LettersLiteral()
    ensures "ABCDEFGHIJKLMNOPQRSTUVWXYZ" + "abcdefghijklmnopqrstuvwxyz"
         == "ABCDEFGHIJKLMNOPQRSTUVWXYZabcdefghijklmnopqrstuvwxyz"
  {
  }

  /** The prefix literal is the upper-case letters, then the lower-case
      letters, then the digits. */
  lemma AlphabetPrefixPieces()
    ensures AlphabetPrefix == "ABCDEFGHIJKLMNOPQRSTUVWXYZ" + "abcdefghijklmnopqrstuvwxyz" + "0123456789"
  {
    LettersLiteral();
    assert "ABCDEFGHIJKLMNOPQRSTUVWXYZabcdefghijklmnopqrstuvwxyz" + "0123456789" == AlphabetPrefix;
  }

  /** The ASCII alphanumerics in the order the prefix lists them. */
  function AlnumRanges(): (s: string)
  {
    CharRange('A', 26) + CharRange('a', 26) + CharRange('0', 10)
  }

  lemma AlnumRangesMembers()
    ensures |AlnumRanges()| == 62
    ensures forall c :: c in AlnumRanges() <==> IsAsciiAlphanumeric(c)
  {
    CharRangeMembers('A', 26);
    CharRangeMembers('a', 26);
    CharRangeMembers('0', 10);
  }

  /** The prefix as character ranges. */
  lemma AlphabetPrefixLayout()
    ensures AlphabetPrefix == AlnumRanges()
  {
    AlphabetPrefixPieces();
    UpperLetters();
    LowerLetters();
    Digits();
  }

  /** A string whose characters are all ASCII alphanumerics or `=` is ASCII. */
  lemma AsciiByMembers(s: string)
    requires forall c :: c in s ==> IsAsciiAlphanumeric(c) || c == '='
    ensures IsAscii(s)
  {
    forall i | 0 <= i < |s|
      ensures s[i] as int < 0x80
    {
      assert s[i] in s;
    }
  }

  /** The alphabet prefix holds 62 characters, all ASCII, and they are
      exactly the ASCII alphanumerics. */
  lemma AlphabetPrefixMembers()
    ensures |AlphabetPrefix| == 62
    ensures IsAscii(AlphabetPrefix)
    ensures forall c :: c in AlphabetPrefix <==> IsAsciiAlphanumeric(c)
  {
    AlphabetPrefixLayout();
    AlnumRangesMembers();
    AsciiByMembers(AlphabetPrefix);
  }

  /** The permissive symbols are the alphabet prefix followed by `=`: exactly
      the ASCII alphanumerics and `=`. */
  lemma PermissiveSymbolsMembers()
    ensures PermissiveSymbols == AlphabetPrefix + "="
    ensures IsAscii(PermissiveSymbols)
    ensures forall c :: c in PermissiveSymbols <==> IsAsciiAlphanumeric(c) || c == '='
  {
    assert PermissiveSymbols == AlphabetPrefix + "=";
    AlphabetPrefixMembers();
    AsciiByMembers(PermissiveSymbols);
  }
}
