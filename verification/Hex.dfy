/** The hex codec (hex.hpp). */
module Hex {
  import opened Bits
  import opened Words
  import opened Results
  import opened FilterIterators

  // ---------- encoding ----------

  const HEX_DIGITS: string := "0123456789abcdef"

  function HexOfByte(b: byte): string {
    [HEX_DIGITS[Shr(b, 4) % 16], HEX_DIGITS[b % 16]]
  }

  function Encode(bs: seq<byte>): string {
    if bs == [] then "" else Encode(bs[..|bs| - 1]) + HexOfByte(bs[|bs| - 1])
  }

  method HexOf(bs: seq<byte>) returns (str: string)
    ensures str == Encode(bs)
  {
    str := "";
    for i := 0 to |bs|
      invariant str == Encode(bs[..i])
    {
      assert bs[..i + 1][..i] == bs[..i];
      str := str + HexOfByte(bs[i]);
    }
    assert bs[..|bs|] == bs;
  }

  // ---------- what decoding means ----------

  /** The value of a hex digit, -1 for any other character. */
  function FromHexDigit(h: char): (v: int)
    ensures -1 <= v < 16
  {
    if '0' <= h <= '9' then h as int - '0' as int
    else if 'a' <= h <= 'f' then h as int - 'a' as int + 10
    else if 'A' <= h <= 'F' then h as int - 'A' as int + 10
    else -1
  }

  predicate IsDigit(h: char) {
    FromHexDigit(h) >= 0
  }

  predicate AllDigits(s: string) {
    forall i :: 0 <= i < |s| ==> IsDigit(s[i])
  }

  /** The string without one optional "0x". */
  function Body(s: string): string {
    if |s| >= 2 && s[0] == '0' && s[1] == 'x' then s[2..] else s
  }

  function Pair(hi: char, lo: char): byte {
    if IsDigit(hi) && IsDigit(lo) then 16 * FromHexDigit(hi) + FromHexDigit(lo) else 0
  }

  /** The bytes that the complete pairs of digits denote. */
  function Pairs(t: string): (bs: seq<byte>)
    ensures |bs| == |t| / 2
  {
    if t == "" then [] else
      Pairs(t[..|t| - 1]) + if |t| % 2 == 1 then [] else [Pair(t[|t| - 2], t[|t| - 1])]
  }

  function DigitPrefix(t: string): (p: string)
    ensures AllDigits(p) && |p| <= |t|
  {
    if t == "" || !IsDigit(t[0]) then "" else [t[0]] + DigitPrefix(t[1..])
  }

  predicate IsHex(t: string) {
    |t| % 2 == 0 && AllDigits(t)
  }

  /** The specification of decoding. */
  function Decode(s: string): Option<seq<byte>> {
    if IsHex(Body(s)) then Some(Pairs(Body(s))) else None
  }

  /** What the decoding loop has written when it stops, also when it stops at an invalid character. */
  function Output(s: string): seq<byte> {
    Pairs(DigitPrefix(Body(s)))
  }

  // ---------- the decoding loop ----------

  /** After the characters q: all digits but for the prefix, with the pending high nibble and the output. */
  ghost predicate Consumed(q: string, hiNibble: int, out: seq<byte>) {
    && AllDigits(Body(q)) && out == Pairs(Body(q))
    && (|q| % 2 == 1 ==> hiNibble == 16 * FromHexDigit(q[|q| - 1]))
  }

  predicate SkipsPrefix(i: nat, hiNibble: int, h: char) {
    i == 1 && hiNibble == 0 && h == 'x'
  }

  lemma BodyAppend(q: string, h: char)
    requires IsDigit(h)
    ensures Body(q + [h]) == Body(q) + [h]
  {
    assert h != 'x';
    hide FromHexDigit;
    if |q| >= 2 {
      assert (q + [h])[2..] == q[2..] + [h];
    }
  }

  lemma PairsAppend(t: string, h: char)
    ensures Pairs(t + [h]) == Pairs(t) + if |t| % 2 == 0 then [] else [Pair(t[|t| - 1], h)]
  {
    hide Pair;
    assert (t + [h])[..|t|] == t;
  }

  lemma BodyShape(q: string)
    ensures |Body(q)| % 2 == |q| % 2
    ensures |q| % 2 == 1 ==> Body(q)[|Body(q)| - 1] == q[|q| - 1]
  {
  }

  lemma ConsumedHigh(q: string, hiNibble: int, out: seq<byte>, h: char)
    requires Consumed(q, hiNibble, out) && IsDigit(h) && |q| % 2 == 0
    ensures Consumed(q + [h], 16 * FromHexDigit(h), out)
  {
    hide IsDigit, Body, Pairs;
    BodyShape(q);
    BodyAppend(q, h);
    PairsAppend(Body(q), h);
  }

  lemma ConsumedLow(q: string, hiNibble: int, out: seq<byte>, h: char)
    requires Consumed(q, hiNibble, out) && IsDigit(h) && |q| % 2 == 1
    ensures 0 <= hiNibble <= 240 && hiNibble % 16 == 0
    ensures 0 <= hiNibble + FromHexDigit(h) < 256
    ensures Consumed(q + [h], hiNibble, out + [hiNibble + FromHexDigit(h)])
  {
    BodyShape(q);
    BodyAppend(q, h);
    PairsAppend(Body(q), h);
    hide Body, Pairs;
  }

  lemma ConsumedPrefix(q: string, hiNibble: int, out: seq<byte>, h: char)
    requires Consumed(q, hiNibble, out) && SkipsPrefix(|q|, hiNibble, h)
    ensures Consumed(q + [h], hiNibble, out)
  {
    assert q + [h] == "0x";
  }

  /** The loop stops: the characters q and h are all that matters. */
  lemma ConsumedStop(q: string, hiNibble: int, out: seq<byte>, h: char, s: string)
    requires Consumed(q, hiNibble, out) && q + [h] <= s
    requires !IsDigit(h) && !SkipsPrefix(|q|, hiNibble, h)
    ensures Decode(s) == None && Output(s) == out
  {
    var b := Body(s);
    assert s[|q|] == h;
    assert Body(q) + [h] <= b by {
      if |q| < 2 {
        assert Body(q) == q && b == s;
      }
    }
    DigitPrefixStops(Body(q), b);
    assert !IsDigit(b[|Body(q)|]);
  }

  lemma {:induction false} DigitPrefixStops(p: string, t: string)
    requires AllDigits(p) && p <= t && (|p| < |t| ==> !IsDigit(t[|p|]))
    ensures DigitPrefix(t) == p
  {
    if p != "" {
      DigitPrefixStops(p[1..], t[1..]);
    }
  }

  lemma ConsumedAll(s: string, hiNibble: int, out: seq<byte>)
    requires Consumed(s, hiNibble, out)
    ensures Decode(s) == (if |s| % 2 == 0 then Some(out) else None) && Output(s) == out
  {
    DigitPrefixStops(Body(s), Body(s));
  }

  lemma NibblesOr(k: nat, v: nat)
    requires v < 16
    ensures Or(16 * k, v) == 16 * k + v
  {
    assert Pow2(4) == 16;
    hide Or, Pow2;
    OrShifted(k, v, 4);
  }

  lemma ConsumedNothing(s: string)
    ensures Consumed(s[..0], -1, [])
  {
  }

  /** The loop's body, which the instantiations of the template share: for the i-th character h of the sequence s
      it gives the next high nibble and the byte to write, if any; or says that the decoding fails. */
  method NextChar(ghost s: string, i: nat, h: char, hiNibble: int, ghost out: seq<byte>)
    returns (valid: bool, hiNibble': int, written: seq<byte>)
    requires i < |s| && s[i] == h && Consumed(s[..i], hiNibble, out)
    ensures !valid ==> Decode(s) == None && Output(s) == out
    ensures valid ==> |written| <= i % 2 && Consumed(s[..i + 1], hiNibble', out + written)
  {
    hide FromHexDigit, Or, Consumed, Decode, Output;
    ghost var q := s[..i];
    assert s[..i + 1] == q + [h] && out + [] == out;
    var v := FromHexDigit(h);
    if v < 0 {
      if SkipsPrefix(i, hiNibble, h) {
        ConsumedPrefix(q, hiNibble, out, h);
        return true, hiNibble, [];
      }
      ConsumedStop(q, hiNibble, out, h, s);
      return false, hiNibble, [];
    }
    if i % 2 == 0 {
      ConsumedHigh(q, hiNibble, out, h);
      return true, 16 * v, [];
    }
    ConsumedLow(q, hiNibble, out, h);
    NibblesOr(hiNibble / 16, v);
    return true, hiNibble, [Or(hiNibble, v)];
  }

  /** The loop over a string, appending to the output. */
  method FromHex(s: string) returns (ok: bool, out: seq<byte>)
    ensures Decode(s) == if ok then Some(out) else None
    ensures out == Output(s)
  {
    hide Decode, Output, Consumed;
    ConsumedNothing(s);
    var hiNibble := -1;
    out := [];
    var i := 0;
    while i < |s|
      invariant 0 <= i <= |s| && Consumed(s[..i], hiNibble, out)
    {
      var valid, hiNibble', written := NextChar(s, i, s[i], hiNibble, out);
      if !valid {
        return false, out;
      }
      hiNibble, out := hiNibble', out + written;
      i := i + 1;
    }
    assert s[..i] == s;
    ConsumedAll(s, hiNibble, out);
    ok := i % 2 == 0;
  }

  /** The loop over a string, writing to an array from the given offset on. Half the length of the string is
      room enough, whatever the string. */
  method FromHexInto(s: string, r: array<byte>, offset: nat) returns (ok: bool)
    requires offset + |s| / 2 <= r.Length
    modifies r
    ensures ok == Decode(s).Some?
    ensures |Output(s)| <= |s| / 2
    ensures forall k :: 0 <= k < r.Length ==>
      r[k] == if offset <= k < offset + |Output(s)| then Output(s)[k - offset] else old(r[k])
  {
    hide Decode, Output, Consumed;
    ConsumedNothing(s);
    var hiNibble := -1;
    ghost var out := [];
    var next := offset;
    var i := 0;
    while i < |s|
      invariant 0 <= i <= |s| && Consumed(s[..i], hiNibble, out)
      invariant next == offset + |out| && |out| <= i / 2
      invariant forall k :: 0 <= k < r.Length ==>
        r[k] == if offset <= k < next then out[k - offset] else old(r[k])
    {
      var valid, hiNibble', written := NextChar(s, i, s[i], hiNibble, out);
      if !valid {
        return false;
      }
      if |written| == 1 {
        r[next] := written[0];
        next := next + 1;
      }
      hiNibble, out := hiNibble', out + written;
      i := i + 1;
    }
    assert s[..i] == s;
    ConsumedAll(s, hiNibble, out);
    ok := i % 2 == 0;
  }

  /** The loop over a string's characters other than white space: from_spaced_hex. */
  method FromSpacedHex(s: string) returns (bytes: Option<seq<byte>>)
    ensures bytes == Decode(Filter(s, IsNotSpace))
  {
    hide Decode, Output, Consumed, IsNotSpace, Filter, Positions;
    ghost var all := Filter(s, IsNotSpace);
    ConsumedNothing(all);
    var hiNibble := -1;
    var out: seq<byte> := [];
    var i := 0;
    var it := new FilterIterator<char>(s, IsNotSpace);
    while !it.AtEnd()
      invariant it.Valid() && fresh(it) && it.range == s && it.keep == IsNotSpace
      invariant i <= |all| && it.Remaining() == all[i..] && Consumed(all[..i], hiNibble, out)
      decreases |s| - it.base
    {
      var h := it.value;
      it.Increment();
      assert all[i..] == [h] + it.Remaining();
      var valid, hiNibble', written := NextChar(all, i, h, hiNibble, out);
      if !valid {
        return None;
      }
      hiNibble, out := hiNibble', out + written;
      assert all[i + 1..] == all[i..][1..];
      i := i + 1;
    }
    it.NothingRemains();
    assert all[..i] == all;
    ConsumedAll(all, hiNibble, out);
    bytes := if i % 2 == 0 then Some(out) else None;
  }

  method ValidateHex(s: string) returns (valid: bool)
    ensures valid == Decode(s).Some?
  {
    var ok, _ := FromHex(s);
    valid := ok;
  }

  // ---------- typed decoding ----------

  /** Decoding into n bytes: what the untyped decoding gives, if it fits, with zeros on the left. */
  function Fitted(decoded: Option<seq<byte>>, n: nat): Option<seq<byte>> {
    if decoded.Some? && |decoded.value| <= n then Some(Zeros(n - |decoded.value|) + decoded.value) else None
  }

  lemma FittedValue(decoded: Option<seq<byte>>, n: nat)
    ensures Fitted(decoded, n).Some? <==> decoded.Some? && |decoded.value| <= n
    ensures Fitted(decoded, n).Some? ==>
      |Fitted(decoded, n).value| == n && Value(Fitted(decoded, n).value) == Value(decoded.value)
  {
    hide Value, Zeros;
    if decoded.Some? && |decoded.value| <= n {
      LeadingZeros(n - |decoded.value|, decoded.value);
    }
  }

  lemma DecodeUnprefixed(t: string)
    requires Body(t) == t
    ensures Decode(t) == if IsHex(t) then Some(Pairs(t)) else None
    ensures IsHex(t) ==> Output(t) == Pairs(t)
  {
    if IsHex(t) {
      DigitPrefixStops(t, t);
    }
  }

  /** The n low bytes of the result, left-padded: the array is written from n - |t| / 2 on. */
  method FromHexAligned(t: string, n: nat) returns (r: Option<seq<byte>>)
    requires Body(t) == t
    ensures r == Fitted(Decode(t), n)
  {
    hide Decode, Output, AllDigits, Pairs;
    DecodeUnprefixed(t);
    var bytes := new byte[n](_ => 0);
    var numInBytes := |t| / 2;
    if numInBytes > n {
      return None;
    }
    var ok := FromHexInto(t, bytes, n - numInBytes);
    if !ok {
      return None;
    }
    assert bytes[..] == Zeros(n - numInBytes) + Pairs(t);
    r := Some(bytes[..]);
  }

  /** from_hex<T>: the untyped decoding refined. */
  method FromHexTyped(s: string, n: nat) returns (r: Option<seq<byte>>)
    ensures r == Fitted(Decode(s), n)
    ensures r.Some? <==> Decode(s).Some? && |Decode(s).value| <= n
    ensures r.Some? ==> |r.value| == n && Value(r.value) == Value(Decode(s).value)
  {
    FittedValue(Decode(s), n);
    var t := s;
    if |s| >= 2 && s[0] == '0' && s[1] == 'x' {
      t := s[2..];
      if |t| >= 2 && t[0] == '0' && (t[1] == 'x' || t[1] == 'X') {
        assert !IsDigit(Body(s)[1]);
        return None;
      }
    }
    assert Body(t) == t == Body(s);
    r := FromHexAligned(t, n);
  }

  /** The empty string, or the prefix and then hex digits only: no second prefix. */
  function Prefixed(s: string, prefix: string, n: nat): Option<seq<byte>> {
    if s == "" then Some(Zeros(n))
    else if prefix <= s && IsHex(s[|prefix|..]) then Fitted(Some(Pairs(s[|prefix|..])), n)
    else None
  }

  /** from_prefixed_hex. */
  method FromPrefixedHex(s: string, prefix: string, n: nat) returns (r: Option<seq<byte>>)
    ensures r == Prefixed(s, prefix, n)
    ensures r.Some? <==>
      s == "" || (prefix <= s && IsHex(s[|prefix|..]) && |s| - |prefix| <= 2 * n)
  {
    var t := s;
    if s != "" {
      if !(prefix <= s) {
        return None;
      }
      t := s[|prefix|..];
    }
    if |t| >= 2 && t[0] == '0' && (t[1] == 'x' || t[1] == 'X') {
      assert !IsDigit(t[1]);
      return None;
    }
    r := FromHexAligned(t, n);
    assert s == "" ==> Zeros(n) + [] == Zeros(n);
  }

  // ---------- inverses ----------

  lemma HexOfByteDigits(b: byte)
    ensures HexOfByte(b) == [HEX_DIGITS[b / 16], HEX_DIGITS[b % 16]]
  {
    hide Shr;
    ShrBy4(b);
  }

  lemma DigitsOfByte(b: byte)
    ensures HexOfByte(b) == [HEX_DIGITS[b / 16], HEX_DIGITS[b % 16]]
    ensures IsDigit(HexOfByte(b)[0]) && IsDigit(HexOfByte(b)[1])
    ensures Pair(HexOfByte(b)[0], HexOfByte(b)[1]) == b
  {
    hide HexOfByte, FromHexDigit;
    HexOfByteDigits(b);
    DigitOfNibble(b / 16);
    DigitOfNibble(b % 16);
  }

  lemma DigitOfNibble(k: nat)
    requires k < 16
    ensures FromHexDigit(HEX_DIGITS[k]) == k
  {
  }

  lemma EncodeAppend(bs: seq<byte>, b: byte)
    ensures Encode(bs + [b]) == Encode(bs) + HexOfByte(b)
  {
    hide HexOfByte;
    assert (bs + [b])[..|bs|] == bs;
  }

  lemma PairsAppendTwo(t: string, hi: char, lo: char)
    requires |t| % 2 == 0
    ensures Pairs(t + [hi] + [lo]) == Pairs(t) + [Pair(hi, lo)]
  {
    hide Pairs, Pair;
    PairsAppend(t, hi);
    PairsAppend(t + [hi], lo);
  }

  lemma {:induction false} EncodedDigits(bs: seq<byte>)
    ensures |Encode(bs)| == 2 * |bs| && AllDigits(Encode(bs)) && Pairs(Encode(bs)) == bs
  {
    if bs != [] {
      var before, b := bs[..|bs| - 1], bs[|bs| - 1];
      assert bs == before + [b];
      hide IsDigit, Pair, HexOfByte, Encode, Pairs;
      EncodedDigits(before);
      DigitsOfByte(b);
      EncodeAppend(before, b);
      PairsAppendTwo(Encode(before), HexOfByte(b)[0], HexOfByte(b)[1]);
      assert Encode(bs) == Encode(before) + [HexOfByte(b)[0]] + [HexOfByte(b)[1]];
    }
  }

  /** Decoding inverts encoding, with and without the prefix. */
  lemma DecodeEncode(bs: seq<byte>)
    ensures Decode(Encode(bs)) == Some(bs)
    ensures Decode("0x" + Encode(bs)) == Some(bs)
  {
    EncodedDigits(bs);
    hide Encode, Pairs;
    var e := Encode(bs);
    if |e| >= 2 {
      assert IsDigit(e[1]);
    }
    assert Body(e) == e;
    assert Body("0x" + e) == e;
  }

  /** The typed decodings invert encoding of as many bytes as fit, up to the zeros on the left. */
  lemma TypedDecodeEncode(bs: seq<byte>, prefix: string, n: nat)
    requires |bs| <= n
    ensures Prefixed(prefix + Encode(bs), prefix, n) == Some(Zeros(n - |bs|) + bs)
    ensures Fitted(Decode(Encode(bs)), n) == Some(Zeros(n - |bs|) + bs)
  {
    EncodedDigits(bs);
    DecodeEncode(bs);
    hide Encode, Pairs, Zeros, Decode;
    assert (prefix + Encode(bs))[|prefix|..] == Encode(bs);
    if prefix + Encode(bs) == "" {
      assert bs == [] && Zeros(n) + bs == Zeros(n);
    }
  }

  function LowerCase(h: char): char {
    if 'A' <= h <= 'F' then (h as int + 32) as char else h
  }

  function Lower(t: string): string {
    if t == "" then "" else Lower(t[..|t| - 1]) + [LowerCase(t[|t| - 1])]
  }

  lemma PairParts(hi: char, lo: char)
    requires IsDigit(hi) && IsDigit(lo)
    ensures Pair(hi, lo) / 16 == FromHexDigit(hi) && Pair(hi, lo) % 16 == FromHexDigit(lo)
  {
    hide FromHexDigit;
  }

  lemma EncodePair(hi: char, lo: char)
    requires IsDigit(hi) && IsDigit(lo)
    ensures HexOfByte(Pair(hi, lo)) == [LowerCase(hi), LowerCase(lo)]
  {
    hide FromHexDigit, HexOfByte, LowerCase, Pair;
    PairParts(hi, lo);
    DigitsOfByte(Pair(hi, lo));
    LowerDigit(hi);
    LowerDigit(lo);
  }

  lemma LowerDigit(h: char)
    requires IsDigit(h)
    ensures HEX_DIGITS[FromHexDigit(h)] == LowerCase(h)
  {
  }

  lemma LowerAppend(t: string, h: char)
    ensures Lower(t + [h]) == Lower(t) + [LowerCase(h)]
  {
    assert (t + [h])[..|t|] == t;
  }

  lemma {:induction false} EncodePairs(t: string)
    requires IsHex(t)
    ensures Encode(Pairs(t)) == Lower(t)
  {
    if t != "" {
      hide IsDigit, Encode, Pairs, Lower, LowerCase, FromHexDigit;
      EncodePairs(t[..|t| - 2]);
      EncodePairsNext(t[..|t| - 2], t[|t| - 2], t[|t| - 1]);
      assert t == t[..|t| - 2] + [t[|t| - 2]] + [t[|t| - 1]];
    }
  }

  lemma EncodePairsNext(u: string, hi: char, lo: char)
    requires |u| % 2 == 0 && IsDigit(hi) && IsDigit(lo) && Encode(Pairs(u)) == Lower(u)
    ensures Encode(Pairs(u + [hi] + [lo])) == Lower(u + [hi] + [lo])
  {
    hide IsDigit, Pair, HexOfByte, LowerCase, Encode, Pairs, Lower;
    EncodePair(hi, lo);
    EncodeAppend(Pairs(u), Pair(hi, lo));
    PairsAppendTwo(u, hi, lo);
    LowerAppend(u, hi);
    LowerAppend(u + [hi], lo);
  }

  /** Decoding accepts exactly the even-length strings of digits after one optional prefix; re-encoding what it
      accepts gives the digits in lower case; and the output is half as long as they are. */
  lemma EncodeDecode(s: string)
    ensures Decode(s).Some? <==> IsHex(s) || ("0x" <= s && IsHex(s[2..]))
    ensures Decode(s).Some? ==> Encode(Decode(s).value) == Lower(Body(s))
    ensures Decode(s).Some? ==> |Decode(s).value| == |Body(s)| / 2 <= |s| / 2
  {
    if IsHex(Body(s)) {
      EncodePairs(Body(s));
    }
    hide Encode, Lower, Pairs;
    assert Body(s) != s <==> "0x" <= s;
    assert "0x" <= s ==> !IsDigit(s[1]);
  }

  // ---------- digits ----------

  /** The digits are these characters. */
  lemma DigitsExactly(h: char)
    ensures IsDigit(h) <==> h in "0123456789abcdefABCDEF"
  {
    if IsDigit(h) {
      var k := FromHexDigit(h);
      assert h == "0123456789abcdef"[k] || h == "0123456789ABCDEF"[k];
    } else {
      assert forall i :: 0 <= i < 22 ==> IsDigit("0123456789abcdefABCDEF"[i]);
    }
  }

  /** Their values are their positions, in either case. */
  lemma DigitValues(k: nat)
    requires k < 16
    ensures FromHexDigit("0123456789abcdef"[k]) == k && FromHexDigit("0123456789ABCDEF"[k]) == k
  {
  }

  /** The number that the digits denote. */
  ghost function Number(t: string): nat
    requires AllDigits(t)
  {
    if t == "" then 0 else 16 * Number(t[..|t| - 1]) + FromHexDigit(t[|t| - 1])
  }

  /** The decoded bytes denote the number that the digits do. */
  lemma {:induction false} PairsValue(t: string)
    requires IsHex(t)
    ensures Value(Pairs(t)) == Number(t)
  {
    if t != "" {
      hide FromHexDigit, Pairs, Value;
      var (u, hi, lo) := (t[..|t| - 2], t[|t| - 2], t[|t| - 1]);
      PairsValue(u);
      assert t == u + [hi] + [lo];
      PairsAppendTwo(u, hi, lo);
      ValueAppend(Pairs(u), Pair(hi, lo));
      assert t[..|t| - 1][..|t| - 2] == u;
    }
  }

  lemma ValueAppend(s: seq<byte>, b: byte)
    ensures Value(s + [b]) == 256 * Value(s) + b
  {
    assert (s + [b])[..|s|] == s;
  }

  /** Decoding ignores the case of the digits. */
  lemma DecodeIgnoresCase(t: string, bs: seq<byte>)
    requires Lower(t) == Encode(bs)
    ensures Decode(t) == Some(bs) == Decode("0x" + t)
  {
    EncodedDigits(bs);
    LowerSame(t);
    hide Encode, Pairs, Lower;
    if |t| >= 2 {
      assert IsDigit(t[1]);
    }
    assert Body(t) == t;
    assert Body("0x" + t) == t;
  }

  lemma LowerSame(t: string)
    ensures |Lower(t)| == |t| && AllDigits(Lower(t)) == AllDigits(t) && Pairs(Lower(t)) == Pairs(t)
  {
    hide FromHexDigit, Pairs, LowerCase, Lower;
    LowerAt(t);
    forall i | 0 <= i < |t|
      ensures IsDigit(Lower(t)[i]) == IsDigit(t[i])
    {
      SameDigit(t[i]);
    }
    LowerPairs(t);
  }

  lemma {:induction false} LowerAt(t: string)
    ensures |Lower(t)| == |t| && forall i :: 0 <= i < |t| ==> Lower(t)[i] == LowerCase(t[i])
  {
    hide LowerCase;
    if t != "" {
      LowerAt(t[..|t| - 1]);
    }
  }

  lemma {:induction false} LowerPairs(t: string)
    ensures Pairs(Lower(t)) == Pairs(t)
  {
    if t != "" {
      hide FromHexDigit, LowerCase, Lower, Pair;
      var (u, h) := (t[..|t| - 1], t[|t| - 1]);
      assert t == u + [h];
      LowerPairs(u);
      LowerAppend(u, h);
      PairsAppend(u, h);
      PairsAppend(Lower(u), LowerCase(h));
      LowerAt(u);
      if |u| % 2 == 1 {
        SamePair(u[|u| - 1], h);
      }
    }
  }

  lemma SamePair(hi: char, lo: char)
    ensures Pair(LowerCase(hi), LowerCase(lo)) == Pair(hi, lo)
  {
    hide FromHexDigit, LowerCase;
    SameDigit(hi);
    SameDigit(lo);
  }

  lemma SameDigit(h: char)
    ensures FromHexDigit(LowerCase(h)) == FromHexDigit(h)
  {
  }
}
