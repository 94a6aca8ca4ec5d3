/** Percent-encoding of URI components, with two policies: which characters are left alone, and how
    a space is written. */
module PercentCodec {
  import opened Bytes

  datatype Reserved = Rfc2396 | Rfc3986

  datatype Spaces = Plus | NoPlus

  datatype Policy = Policy(reserved: Reserved, spaces: Spaces)

  const SPACE: byte := 32
  const PLUS: byte := 43
  const PERCENT: byte := 37

  predicate Alphanumeric(c: byte) {
    97 <= c <= 122 || 65 <= c <= 90 || 48 <= c <= 57
  }

  /** Whether a character must be encoded: in both policies '-', '_', '.' and '~' are left alone, in
      the older one also '!', ''', '(' and ')'. */
  predicate Match(r: Reserved, c: byte) {
    && !Alphanumeric(c)
    && c !in [45, 95, 46, 126]
    && (r == Rfc2396 ==> c !in [33, 39, 40, 41])
  }

  function SpaceEncoded(s: Spaces): seq<byte> {
    if s == Plus then [PLUS] else [PERCENT, 50, 48]
  }

  function PlusDecoded(s: Spaces): byte {
    if s == Plus then SPACE else PLUS
  }

  /** Lower-case hexadecimal digits, as a stream prints them. */
  function HexDigit(n: nat): byte
    requires n < 16
  {
    if n < 10 then 48 + n else 87 + n
  }

  function Triplet(c: byte): seq<byte> {
    [PERCENT, HexDigit(c / 16), HexDigit(c % 16)]
  }

  function EncodeOne(p: Policy, c: byte): seq<byte> {
    if !Match(p.reserved, c) then [c]
    else if c == SPACE then SpaceEncoded(p.spaces)
    else Triplet(c)
  }

  function Encoded(p: Policy, s: seq<byte>): seq<byte> {
    if s == [] then [] else EncodeOne(p, s[0]) + Encoded(p, s[1..])
  }

  // ---------- decoding, of any text ----------

  function HexValue(c: byte): int {
    if 48 <= c <= 57 then c - 48
    else if 97 <= c <= 102 then c - 87
    else if 65 <= c <= 70 then c - 55
    else -1
  }

  predicate Whitespace(c: byte) {
    c == SPACE || 9 <= c <= 13
  }

  /** What a stream in hexadecimal mode extracts from at most two characters, cut to a byte: blanks are
      skipped, a sign is taken, and what is no number gives zero. If nothing is left to extract from,
      the variable keeps the value it happens to have, here `junk`. */
  function Extract(t: seq<byte>, junk: byte): byte
    requires |t| <= 2
  {
    if t == [] then junk
    else if Whitespace(t[0]) then Extract(t[1..], junk)
    else if |t| == 1 then (if HexValue(t[0]) >= 0 then HexValue(t[0]) else 0)
    else if t[0] == PLUS || t[0] == 45 then
      if HexValue(t[1]) <= 0 then 0 else if t[0] == PLUS then HexValue(t[1]) else 0x100 - HexValue(t[1])
    else if HexValue(t[0]) < 0 then 0
    else if HexValue(t[1]) < 0 then HexValue(t[0])
    else HexValue(t[0]) * 16 + HexValue(t[1])
  }

  function Skip(s: seq<byte>, n: nat): seq<byte> {
    if n < |s| then s[n..] else []
  }

  /** `junk` gives the leftover value when a triplet is cut off or blank; it may differ each time. */
  function Decoded(p: Policy, s: seq<byte>, junk: nat -> byte): seq<byte>
    decreases |s|
  {
    if s == [] then []
    else if s[0] == PLUS then [PlusDecoded(p.spaces)] + Decoded(p, s[1..], junk)
    else if s[0] == PERCENT then
      [Extract(if |s| < 3 then s[1..] else s[1..3], junk(|s|))] + Decoded(p, Skip(s, 3), junk)
    else [s[0]] + Decoded(p, s[1..], junk)
  }

  // ---------- the coder as the program runs it ----------

  lemma NextEncoded(p: Policy, s: seq<byte>, i: nat)
    requires i < |s|
    ensures Encoded(p, s[i..]) == EncodeOne(p, s[i]) + Encoded(p, s[i + 1..])
  {
    assert s[i..][1..] == s[i + 1..];
  }

  lemma NothingEncoded(p: Policy, s: seq<byte>)
    requires s == []
    ensures Encoded(p, s) == []
  {
  }

  method Encode(p: Policy, s: seq<byte>) returns (oss: seq<byte>)
    ensures oss == Encoded(p, s)
  {
    hide Encoded, Match, HexDigit;
    oss := [];
    assert s[0..] == s;
    for i := 0 to |s|
      invariant oss + Encoded(p, s[i..]) == Encoded(p, s)
    {
      var c := s[i];
      NextEncoded(p, s, i);
      ghost var before := oss;
      if !Match(p.reserved, c) {
        oss := oss + [c];
      } else if c == SPACE {
        oss := oss + SpaceEncoded(p.spaces);
      } else {
        oss := oss + [PERCENT] + [HexDigit(c / 16), HexDigit(c % 16)];
      }
      assert oss == before + EncodeOne(p, c);
    }
    NothingEncoded(p, s[|s|..]);
  }

  lemma NextDecoded(p: Policy, s: seq<byte>, i: nat, junk: nat -> byte)
    requires i < |s|
    ensures s[i] == PLUS ==> Decoded(p, Skip(s, i), junk) == [PlusDecoded(p.spaces)] + Decoded(p, Skip(s, i + 1), junk)
    ensures s[i] == PERCENT ==>
              Decoded(p, Skip(s, i), junk) ==
              [Extract(if |s| - i < 3 then s[i + 1..] else s[i + 1..i + 3], junk(|s| - i))]
              + Decoded(p, Skip(s, i + 3), junk)
    ensures s[i] != PLUS && s[i] != PERCENT ==>
              Decoded(p, Skip(s, i), junk) == [s[i]] + Decoded(p, Skip(s, i + 1), junk)
  {
    hide Extract;
    var rest := s[i..];
    assert Skip(s, i) == rest && rest[1..] == s[i + 1..] == Skip(s, i + 1) && Skip(rest, 3) == Skip(s, i + 3);
    assert |rest| >= 3 ==> rest[1..3] == s[i + 1..i + 3];
  }

  lemma NothingDecoded(p: Policy, s: seq<byte>, junk: nat -> byte)
    requires s == []
    ensures Decoded(p, s, junk) == []
  {
  }

  method Decode(p: Policy, s: seq<byte>, junk: nat -> byte) returns (oss: seq<byte>)
    ensures oss == Decoded(p, s, junk)
  {
    hide Decoded, Extract;
    oss := [];
    var i := 0;
    assert Skip(s, 0) == s;
    while i < |s|
      invariant oss + Decoded(p, Skip(s, i), junk) == Decoded(p, s, junk)
    {
      var c := s[i];
      NextDecoded(p, s, i, junk);
      ghost var before, goal := oss, Decoded(p, s, junk);
      if c == PLUS {
        oss := oss + [PlusDecoded(p.spaces)];
      } else if c == PERCENT {
        var d := Extract(if |s| - i < 3 then s[i + 1..] else s[i + 1..i + 3], junk(|s| - i));
        oss := oss + [d];
        i := i + 2;
      } else {
        oss := oss + [c];
      }
      i := i + 1;
      assert oss == before + [oss[|before|]];
      assert oss + Decoded(p, Skip(s, i), junk) == before + ([oss[|before|]] + Decoded(p, Skip(s, i), junk)) == goal;
    }
    NothingDecoded(p, Skip(s, i), junk);
  }

  // ---------- round trip ----------

  lemma HexRoundTrip(c: byte, junk: byte)
    ensures Extract([HexDigit(c / 16), HexDigit(c % 16)], junk) == c
  {
  }

  lemma DecodeOne(p: Policy, c: byte, rest: seq<byte>, junk: nat -> byte)
    ensures Decoded(p, EncodeOne(p, c) + rest, junk) == [c] + Decoded(p, rest, junk)
  {
    var code := EncodeOne(p, c);
    var s := code + rest;
    if |code| == 1 {
      assert s[1..] == rest;
    } else {
      assert s[1..3] == code[1..3] && s[3..] == rest && Skip(s, 3) == rest;
      HexRoundTrip(c, junk(|s|));
      assert code == Triplet(c);
      assert s[1..3] == [HexDigit(c / 16), HexDigit(c % 16)];
    }
  }

  /** Decoding undoes encoding, for every byte string and every combination of policies. */
  lemma {:induction false} RoundTrip(p: Policy, s: seq<byte>, junk: nat -> byte)
    ensures Decoded(p, Encoded(p, s), junk) == s
    decreases |s|
  {
    if s != [] {
      RoundTrip(p, s[1..], junk);
      DecodeOne(p, s[0], Encoded(p, s[1..]), junk);
    }
  }

  lemma EncodeInjective(p: Policy, s: seq<byte>, t: seq<byte>)
    requires Encoded(p, s) == Encoded(p, t)
    ensures s == t
  {
    var junk := (n: nat) => SPACE;
    RoundTrip(p, s, junk);
    RoundTrip(p, t, junk);
  }

  lemma {:induction false} EncodeConcat(p: Policy, s: seq<byte>, t: seq<byte>)
    ensures Encoded(p, s + t) == Encoded(p, s) + Encoded(p, t)
    decreases |s|
  {
    if s == [] {
      assert s + t == t;
    } else {
      EncodeConcat(p, s[1..], t);
      assert (s + t)[0] == s[0] && (s + t)[1..] == s[1..] + t;
    }
  }

  /** The characters left alone, which are those of section 2.3 of RFC 3986, and in the older policy those of
      section 2.3 of RFC 2396 but for the asterisk. */
  predicate Unreserved(r: Reserved, c: char) {
    || 'a' <= c <= 'z' || 'A' <= c <= 'Z' || '0' <= c <= '9' || c in "-_.~"
    || (r == Rfc2396 && c in "!'()")
  }

  lemma MatchIsReserved(r: Reserved, c: byte)
    ensures Match(r, c) <==> !Unreserved(r, c as char)
  {
  }

  lemma {:induction false} NeverShorter(p: Policy, s: seq<byte>)
    ensures |Encoded(p, s)| >= |s|
  {
    if s != [] {
      NeverShorter(p, s[1..]);
    }
  }

  /** A text is its own encoding if and only if all its characters are unreserved. */
  lemma {:induction false} LeftAlone(p: Policy, s: seq<byte>)
    ensures Encoded(p, s) == s <==> forall c | c in s :: Unreserved(p.reserved, c as char)
    decreases |s|
  {
    hide Unreserved, Match;
    if s != [] {
      var code, rest := EncodeOne(p, s[0]), Encoded(p, s[1..]);
      LeftAlone(p, s[1..]);
      NeverShorter(p, s[1..]);
      MatchIsReserved(p.reserved, s[0]);
      OneOrThree(p, s[0]);
      assert s == [s[0]] + s[1..] && s[0] in s;
      if Match(p.reserved, s[0]) {
        assert |code| == 1 ==> (code + rest)[0] == code[0] && code == [code[0]];
      } else {
        assert Encoded(p, s) == [s[0]] + rest && ([s[0]] + rest)[1..] == rest;
        assert forall c | c in s :: c == s[0] || c in s[1..];
        assert forall c | c in s[1..] :: c in s;
      }
    }
  }

  lemma OneOrThree(p: Policy, c: byte)
    ensures var code := EncodeOne(p, c);
      |code| == (if Match(p.reserved, c) && !(c == SPACE && p.spaces == Plus) then 3 else 1)
    ensures EncodeOne(p, c) == [c] <==> !Match(p.reserved, c)
  {
  }

  /** The hexadecimal digits of a number below 16, in lower and in upper case. */
  function Digits(n: nat): string
    requires n < 16
  {
    ["0123456789abcdef"[n], "0123456789ABCDEF"[n]]
  }

  lemma DigitIsRead(n: nat, c: byte)
    requires n < 16 && c as char in Digits(n)
    ensures HexValue(c) == n && !Whitespace(c) && c != PLUS && c != 45
  {
  }

  /** A percent triplet is read as section 2.1 of RFC 3986 has it, its digits in upper or lower case. */
  lemma TripletIsRead(p: Policy, x: nat, y: nat, a: byte, b: byte, rest: seq<byte>, junk: nat -> byte)
    requires x < 16 && y < 16 && a as char in Digits(x) && b as char in Digits(y)
    ensures Decoded(p, [37, a, b] + rest, junk) == [16 * x + y] + Decoded(p, rest, junk)
  {
    hide HexValue, Digits;
    DigitIsRead(x, a);
    DigitIsRead(y, b);
    var s := [37, a, b] + rest;
    assert s[1..3] == [a, b] && Skip(s, 3) == rest;
  }

  predicate AnyDigit(c: byte) {
    exists n: nat | n < 16 :: c as char in Digits(n)
  }

  lemma DigitOrNot(c: byte)
    ensures AnyDigit(c) <==> HexValue(c) >= 0
  {
    hide Digits;
    if AnyDigit(c) {
      var n: nat :| n < 16 && c as char in Digits(n);
      DigitIsRead(n, c);
    } else if HexValue(c) >= 0 {
      ValueHasDigit(c);
    }
  }

  lemma ValueHasDigit(c: byte)
    requires HexValue(c) >= 0
    ensures HexValue(c) < 16 && c as char in Digits(HexValue(c))
  {
  }

  /** A malformed triplet still takes up three characters: one digit before something else gives its value,
      and what starts with neither a digit nor a sign nor a blank gives zero. */
  lemma MalformedIsRead(p: Policy, x: nat, a: byte, b: byte, rest: seq<byte>, junk: nat -> byte)
    requires x < 16
    requires if AnyDigit(a) then a as char in Digits(x) && !AnyDigit(b) else a as char !in "+- \t\n\r" && a != 11 && a != 12
    ensures Decoded(p, [37, a, b] + rest, junk) == [if AnyDigit(a) then x else 0] + Decoded(p, rest, junk)
  {
    hide HexValue, Digits, AnyDigit;
    DigitOrNot(a);
    DigitOrNot(b);
    if AnyDigit(a) {
      DigitIsRead(x, a);
    }
    var s := [37, a, b] + rest;
    assert s[1..3] == [a, b] && Skip(s, 3) == rest;
  }

  /** A triplet cut short by the end of the text: a digit alone gives its value, and with nothing to read the
      result is whatever the variable held. */
  lemma CutTripletIsRead(p: Policy, x: nat, a: byte, junk: nat -> byte)
    requires x < 16 && a as char in Digits(x)
    ensures Decoded(p, [37, a], junk) == [x] && Decoded(p, [37], junk) == [junk(1)]
  {
    hide HexValue, Digits;
    DigitIsRead(x, a);
    assert [37, a][1..] == [a] && [37][1..] == [];
  }

  /** Any character but '%' and '+' is its own decoding, and '+' is a space if the policy has it so. */
  lemma PlainIsRead(p: Policy, c: byte, rest: seq<byte>, junk: nat -> byte)
    requires c as char != '%'
    ensures Decoded(p, [c] + rest, junk) ==
            [if c as char == '+' && p.spaces == Plus then 32 else c] + Decoded(p, rest, junk)
  {
    assert ([c] + rest)[1..] == rest;
  }

  // ---------- which texts are encodings ----------

  predicate LowerHex(c: byte) {
    48 <= c <= 57 || 97 <= c <= 102
  }

  /** The length of the code that a text starts with: an unreserved character, a '+' where that stands
      for a space, or a percent triplet in lower case for a character that needs one. */
  function CodeLength(p: Policy, t: seq<byte>): (n: nat)
    ensures n <= |t|
  {
    if t == [] then 0
    else if !Match(p.reserved, t[0]) then 1
    else if t[0] == PLUS && p.spaces == Plus then 1
    else if |t| >= 3 && t[0] == PERCENT && LowerHex(t[1]) && LowerHex(t[2]) then
      var c := HexValue(t[1]) * 16 + HexValue(t[2]);
      if Match(p.reserved, c) && !(c == SPACE && p.spaces == Plus) then 3 else 0
    else 0
  }

  /** A text made of such codes. */
  predicate Canonical(p: Policy, t: seq<byte>)
    decreases |t|
  {
    t == [] || (CodeLength(p, t) > 0 && Canonical(p, t[CodeLength(p, t)..]))
  }

  lemma EncodeOneIsCode(p: Policy, c: byte, rest: seq<byte>)
    ensures CodeLength(p, EncodeOne(p, c) + rest) == |EncodeOne(p, c)|
  {
    var s := EncodeOne(p, c) + rest;
    if |EncodeOne(p, c)| == 3 {
      assert EncodeOne(p, c) == Triplet(c);
      assert s[0] == PERCENT && s[1] == HexDigit(c / 16) && s[2] == HexDigit(c % 16);
      assert HexValue(s[1]) == c / 16 && HexValue(s[2]) == c % 16;
    }
  }

  /** An encoding consists of unreserved characters, percent triplets and, if the policy has it, '+'. */
  lemma {:induction false} EncodedIsCanonical(p: Policy, s: seq<byte>)
    ensures Canonical(p, Encoded(p, s))
    decreases |s|
  {
    if s != [] {
      var code, rest := EncodeOne(p, s[0]), Encoded(p, s[1..]);
      EncodedIsCanonical(p, s[1..]);
      EncodeOneIsCode(p, s[0], rest);
      assert (code + rest)[|code|..] == rest;
    }
  }

  lemma CodeIsEncodeOne(p: Policy, t: seq<byte>, junk: nat -> byte)
    requires CodeLength(p, t) > 0
    ensures var n := CodeLength(p, t);
      exists c: byte :: Decoded(p, t, junk) == [c] + Decoded(p, t[n..], junk) && EncodeOne(p, c) == t[..n]
  {
    var n := CodeLength(p, t);
    if n == 1 {
      var c := if t[0] == PLUS then SPACE else t[0];
      assert EncodeOne(p, c) == t[..1];
      assert Decoded(p, t, junk) == [c] + Decoded(p, t[1..], junk);
    } else {
      var c: byte := HexValue(t[1]) * 16 + HexValue(t[2]);
      assert Extract(t[1..3], junk(|t|)) == c;
      assert Skip(t, 3) == t[3..];
      assert Decoded(p, t, junk) == [c] + Decoded(p, t[3..], junk);
      assert c / 16 == HexValue(t[1]) && c % 16 == HexValue(t[2]);
      assert EncodeOne(p, c) == Triplet(c) == t[..3];
    }
  }

  /** Encoding undoes decoding exactly on the canonical texts. */
  lemma {:induction false} ReverseRoundTrip(p: Policy, t: seq<byte>, junk: nat -> byte)
    ensures Encoded(p, Decoded(p, t, junk)) == t <==> Canonical(p, t)
    decreases |t|
  {
    if Canonical(p, t) {
      if t != [] {
        var n := CodeLength(p, t);
        CodeIsEncodeOne(p, t, junk);
        var c: byte :| Decoded(p, t, junk) == [c] + Decoded(p, t[n..], junk) && EncodeOne(p, c) == t[..n];
        ReverseRoundTrip(p, t[n..], junk);
        var tail := Decoded(p, t[n..], junk);
        assert ([c] + tail)[1..] == tail;
        assert t == t[..n] + t[n..];
      }
    } else {
      EncodedIsCanonical(p, Decoded(p, t, junk));
    }
  }
}
