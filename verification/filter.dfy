/** The permissive branch of `b64decode` (src/lib.rs:109-122): a 256-entry
    membership table built in place, and the order-preserving selection of the
    input bytes the table marks valid. */
module PermissiveFilter {
  import opened Bytes
  import opened Symbols

  /** The altchars pair as `get_engine` hands it on (`[u8; 2]`). */
  type Pair = (byte, byte)

  /** The bytes the permissive decoder keeps: ASCII letters and digits, `=`,
      and the two altchars. */
  predicate Permitted(alt: Pair, b: byte): (ok: bool)
  {
    IsAsciiAlphanumeric(ToChar(b)) || ToChar(b) == '=' || b == alt.0 || b == alt.1
  }

  /** The table `valid` ends up as, one entry per byte value. */
  function TableOf(alt: Pair): (t: seq<bool>)
    ensures |t| == 256
  {
    seq(256, i requires 0 <= i < 256 => Permitted(alt, i as byte))
  }

  /** The `for` loop of the table construction: sets the entry of each
      character of `symbols`, one at a time, and leaves the others alone. */
  method MarkSymbols(table: array<bool>, symbols: string)
    requires table.Length == 256
    requires IsAscii(symbols)
    modifies table
    ensures forall b: byte :: table[b] <==> old(table[b]) || ToChar(b) in symbols
  {
    for i := 0 to |symbols|
      invariant forall b: byte :: table[b] <==> old(table[b]) || ToChar(b) in symbols[..i]
    {
      table[symbols[i] as int] := true;
      assert symbols[..i + 1] == symbols[..i] + [symbols[i]];
    }
    assert symbols[..|symbols|] == symbols;
  }

  /** Builds the table as the source does: all entries false, then one entry
      set for each byte of the permissive symbols, then one for each altchar. */
  method BuildTable(alt: Pair) returns (valid: seq<bool>)
    ensures |valid| == 256
    ensures forall b: byte :: valid[b] <==>
              IsAsciiAlphanumeric(ToChar(b)) || ToChar(b) == '=' || b == alt.0 || b == alt.1
    ensures valid == TableOf(alt)
  {
    var table := new bool[256](_ => false);
    PermissiveSymbolsMembers();
    MarkSymbols(table, PermissiveSymbols);
    table[alt.0] := true;
    table[alt.1] := true;
    valid := table[..];
  }

  /** The bytes of `s` whose table entry is true, in their original order. */
  function Retain(valid: seq<bool>, s: seq<byte>): (r: seq<byte>)
    requires |valid| == 256
    ensures |r| <= |s|
    ensures forall k :: 0 <= k < |r| ==> valid[r[k]]
    decreases |s|
  {
    if s == [] then []
    else
      var last := s[|s| - 1];
      Retain(valid, s[..|s| - 1]) + (if valid[last] then [last] else [])
  }

  /** Collects the bytes the table marks valid into a new buffer. */
  method FilterBytes(valid: seq<bool>, bytes: seq<byte>) returns (kept: seq<byte>)
    requires |valid| == 256
    ensures kept == Retain(valid, bytes)
  {
    kept := [];
    for i := 0 to |bytes|
      invariant kept == Retain(valid, bytes[..i])
    {
      assert bytes[..i + 1][..i] == bytes[..i];
      if valid[bytes[i]] {
        kept := kept + [bytes[i]];
      }
    }
    assert bytes[..|bytes|] == bytes;
  }

  /** `idx` lists, in increasing order, positions of `s` that spell `sub`. */
  ghost predicate Embeds(sub: seq<byte>, s: seq<byte>, idx: seq<nat>)
  {
    && |idx| == |sub|
    && (forall k :: 0 <= k < |idx| ==> idx[k] < |s| && sub[k] == s[idx[k]])
    && (forall j, k :: 0 <= j < k < |idx| ==> idx[j] < idx[k])
  }

  /** `sub` is `s` with some bytes deleted and the rest kept in order. */
  ghost predicate IsSubsequence(sub: seq<byte>, s: seq<byte>)
  {
    exists idx :: Embeds(sub, s, idx)
  }

  /** The filter output is an order-preserving subsequence of the input, so
      never longer than it. */
  lemma {:induction false} RetainIsSubsequence(valid: seq<bool>, s: seq<byte>)
    requires |valid| == 256
    ensures IsSubsequence(Retain(valid, s), s)
    ensures |Retain(valid, s)| <= |s|
  {
    RetainPositions(valid, s);
    var idx := Positions(valid, s);
  }

  /** The positions of `s` whose bytes the table marks valid, in increasing
      order. */
  ghost function Positions(valid: seq<bool>, s: seq<byte>): (idx: seq<nat>)
    requires |valid| == 256
    decreases |s|
  {
    if s == [] then []
    else Positions(valid, s[..|s| - 1]) + (if valid[s[|s| - 1]] then [|s| - 1] else [])
  }

  /** The filter keeps exactly the bytes at `Positions`: each kept byte sits
      at one of them, in order, and each of them holds a valid byte. */
  lemma {:induction false} RetainPositions(valid: seq<bool>, s: seq<byte>)
    requires |valid| == 256
    ensures Embeds(Retain(valid, s), s, Positions(valid, s))
    ensures forall k :: 0 <= k < |Positions(valid, s)| ==> valid[s[Positions(valid, s)[k]]]
    decreases |s|
  {
    if s != [] {
      var init, last := s[..|s| - 1], s[|s| - 1];
      RetainPositions(valid, init);
      var prev, idx := Positions(valid, init), Positions(valid, s);
      var r := Retain(valid, s);
      assert r == Retain(valid, init) + (if valid[last] then [last] else []);
      forall k | 0 <= k < |idx|
        ensures idx[k] < |s| && r[k] == s[idx[k]] && valid[s[idx[k]]]
      {
        if k < |prev| {
          assert s[idx[k]] == init[prev[k]];
        }
      }
    }
  }

  /** Every position holding a valid byte is one of `Positions`. */
  lemma {:induction false} PositionsCoverValid(valid: seq<bool>, s: seq<byte>)
    requires |valid| == 256
    ensures forall i :: 0 <= i < |s| && valid[s[i]] ==> i in Positions(valid, s)
    decreases |s|
  {
    if s != [] {
      var init := s[..|s| - 1];
      PositionsCoverValid(valid, init);
      forall i | 0 <= i < |s| && valid[s[i]]
        ensures i in Positions(valid, s)
      {
        if i < |init| {
          assert init[i] == s[i];
        }
      }
    }
  }

  /** A valid byte value occurs in the output as often as in the input; an
      invalid one does not occur at all. */
  lemma {:induction false} RetainCounts(valid: seq<bool>, s: seq<byte>, b: byte)
    requires |valid| == 256
    ensures multiset(Retain(valid, s))[b] == if valid[b] then multiset(s)[b] else 0
    decreases |s|
  {
    if s != [] {
      var init, last := s[..|s| - 1], s[|s| - 1];
      RetainCounts(valid, init, b);
      assert s == init + [last];
      assert multiset(s) == multiset(init) + multiset([last]);
    }
  }

  /** Every position of the input holding a valid byte is kept: one
      embedding of the result into the input covers all of them. */
  lemma RetainKeepsValid(valid: seq<bool>, s: seq<byte>)
    requires |valid| == 256
    ensures exists idx :: Embeds(Retain(valid, s), s, idx)
                          && forall i :: 0 <= i < |s| && valid[s[i]] ==> i in idx
  {
    RetainPositions(valid, s);
    PositionsCoverValid(valid, s);
    var idx := Positions(valid, s);
  }

  /** Filtering a concatenation filters each part. */
  lemma {:induction false} RetainAppend(valid: seq<bool>, a: seq<byte>, b: seq<byte>)
    requires |valid| == 256
    ensures Retain(valid, a + b) == Retain(valid, a) + Retain(valid, b)
    decreases |b|
  {
    if b == [] {
      assert a + b == a;
    } else {
      var init, last := b[..|b| - 1], b[|b| - 1];
      RetainAppend(valid, a, init);
      assert (a + b)[..|a + b| - 1] == a + init;
    }
  }

  /** A sequence of valid bytes only is left unchanged. */
  lemma {:induction false} RetainAllValid(valid: seq<bool>, s: seq<byte>)
    requires |valid| == 256
    requires forall k :: 0 <= k < |s| ==> valid[s[k]]
    ensures Retain(valid, s) == s
    decreases |s|
  {
    if s != [] {
      var init := s[..|s| - 1];
      RetainAllValid(valid, init);
      assert s == init + [s[|s| - 1]];
    }
  }

  /** A sequence without valid bytes is dropped entirely. */
  lemma {:induction false} RetainNoneValid(valid: seq<bool>, s: seq<byte>)
    requires |valid| == 256
    requires forall k :: 0 <= k < |s| ==> !valid[s[k]]
    ensures Retain(valid, s) == []
    decreases |s|
  {
    if s != [] {
      RetainNoneValid(valid, s[..|s| - 1]);
    }
  }

  /** Filtering twice is filtering once. */
  lemma RetainIdempotent(valid: seq<bool>, s: seq<byte>)
    requires |valid| == 256
    ensures Retain(valid, Retain(valid, s)) == Retain(valid, s)
  {
    RetainAllValid(valid, Retain(valid, s));
  }

  /** Inserting invalid bytes anywhere does not change the filter output. */
  lemma RetainIgnoresNoise(valid: seq<bool>, a: seq<byte>, noise: seq<byte>, b: seq<byte>)
    requires |valid| == 256
    requires forall k :: 0 <= k < |noise| ==> !valid[noise[k]]
    ensures Retain(valid, a + noise + b) == Retain(valid, a + b)
  {
    RetainAppend(valid, a + noise, b);
    RetainAppend(valid, a, noise);
    RetainAppend(valid, a, b);
    RetainNoneValid(valid, noise);
    assert Retain(valid, a + noise) == Retain(valid, a);
  }
}
