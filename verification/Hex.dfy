/** Hash values and their lowercase Base16 text (section 8 of RFC 4648). */
module Hex {
  import opened Text
  import opened Wrappers

  type Hash = h: seq<bv8> | |h| == 32 witness seq(32, _ => 0)

  function HexDigit(n: bv8): char
    requires n < 16
  {
    if n == 0 then '0' else if n == 1 then '1' else if n == 2 then '2' else if n == 3 then '3'
    else if n == 4 then '4' else if n == 5 then '5' else if n == 6 then '6' else if n == 7 then '7'
    else if n == 8 then '8' else if n == 9 then '9' else if n == 10 then 'a' else if n == 11 then 'b'
    else if n == 12 then 'c' else if n == 13 then 'd' else if n == 14 then 'e' else 'f'
  }

  /** Upper and lower case are both read. */
  function Nibble(c: char): Option<bv8> {
    if c == '0' then Some(0) else if c == '1' then Some(1) else if c == '2' then Some(2) else if c == '3' then Some(3)
    else if c == '4' then Some(4) else if c == '5' then Some(5) else if c == '6' then Some(6) else if c == '7' then Some(7)
    else if c == '8' then Some(8) else if c == '9' then Some(9)
    else if c == 'a' || c == 'A' then Some(10) else if c == 'b' || c == 'B' then Some(11)
    else if c == 'c' || c == 'C' then Some(12) else if c == 'd' || c == 'D' then Some(13)
    else if c == 'e' || c == 'E' then Some(14) else if c == 'f' || c == 'F' then Some(15)
    else None
  }

  function Encode(bytes: seq<bv8>): string {
    if bytes == [] then ""
    else [HexDigit(bytes[0] >> 4), HexDigit(bytes[0] & 15)] + Encode(bytes[1..])
  }

  function Decode(s: string): Option<seq<bv8>> {
    if s == "" then Some([])
    else if |s| == 1 then None
    else
      match (Nibble(s[0]), Nibble(s[1]), Decode(s[2..]))
      case (Some(hi), Some(lo), Some(rest)) => Some([(hi << 4) | lo] + rest)
      case _ => None
  }

  function LowerChar(c: char): char {
    if 'A' <= c <= 'Z' then ((c as int) - ('A' as int) + ('a' as int)) as char else c
  }

  function Lower(s: string): (r: string)
    ensures |r| == |s|
  {
    seq(|s|, i requires 0 <= i < |s| => LowerChar(s[i]))
  }

  datatype HashError = InvalidHex | WrongLength(bytes: nat)

  /** `ParseHashHex` */
  function ParseHashHex(s: string): Result<Hash, HashError> {
    match Decode(s)
    case None => Err(InvalidHex)
    case Some(b) => if |b| != 32 then Err(WrongLength(|b|)) else Ok(b)
  }

  // ----- encoding and decoding -----

  lemma NibbleOfDigit(n: bv8)
    requires n < 16
    ensures Nibble(HexDigit(n)) == Some(n) && LowerChar(HexDigit(n)) == HexDigit(n) && HexDigit(n) != '\n'
  {
  }

  /** The characters a nibble is read from are its digit and that digit's capital. */
  lemma NibbleMeaning(c: char, n: bv8)
    requires n < 16
    ensures Nibble(c) == Some(n) <==> LowerChar(c) == HexDigit(n)
  {
  }

  lemma NibbleRange(c: char)
    ensures Nibble(c).Some? ==> Nibble(c).value < 16
  {
  }

  lemma Halves(b: bv8)
    ensures b >> 4 < 16 && b & 15 < 16 && ((b >> 4) << 4) | (b & 15) == b
  {
  }

  lemma Whole(hi: bv8, lo: bv8)
    requires hi < 16 && lo < 16
    ensures ((hi << 4) | lo) >> 4 == hi && ((hi << 4) | lo) & 15 == lo
  {
  }

  lemma {:induction false} EncodedText(bytes: seq<bv8>)
    ensures |Encode(bytes)| == 2 * |bytes|
    ensures '\n' !in Encode(bytes) && Lower(Encode(bytes)) == Encode(bytes)
  {
    if bytes != [] {
      EncodedText(bytes[1..]);
      Halves(bytes[0]);
      NibbleOfDigit(bytes[0] >> 4);
      NibbleOfDigit(bytes[0] & 15);
      var head := [HexDigit(bytes[0] >> 4), HexDigit(bytes[0] & 15)];
      assert Lower(Encode(bytes)) == Lower(head) + Lower(Encode(bytes[1..]));
    }
  }

  /** The number a lowercase digit stands for (table 5 of RFC 4648). */
  function DigitOf(c: char): nat {
    if '0' <= c <= '9' then (c as nat) - ('0' as nat)
    else if 'a' <= c <= 'f' then (c as nat) - ('a' as nat) + 10
    else 16
  }

  lemma DigitMeaning(n: bv8)
    requires n < 16
    ensures DigitOf(HexDigit(n)) == n as nat
  {
  }

  lemma HalvesValue(b: bv8)
    ensures (b >> 4) as nat * 16 + (b & 15) as nat == b as nat
  {
  }

  /** Each byte is written as two digits, the greater first. */
  lemma {:induction false} EncodedDigits(bytes: seq<bv8>, i: nat)
    requires i < |bytes|
    ensures |Encode(bytes)| == 2 * |bytes|
    ensures DigitOf(Encode(bytes)[2 * i]) * 16 + DigitOf(Encode(bytes)[2 * i + 1]) == bytes[i] as nat
  {
    EncodedText(bytes);
    if i == 0 {
      Halves(bytes[0]);
      DigitMeaning(bytes[0] >> 4);
      DigitMeaning(bytes[0] & 15);
      HalvesValue(bytes[0]);
    } else {
      EncodedDigits(bytes[1..], i - 1);
    }
  }

  /** Byte by byte. */
  predicate BytesLe(a: seq<bv8>, b: seq<bv8>) {
    a == [] || (b != [] && (a[0] < b[0] || (a[0] == b[0] && BytesLe(a[1..], b[1..]))))
  }

  lemma DigitsOrdered(m: bv8, n: bv8)
    requires m < 16 && n < 16
    ensures HexDigit(m) < HexDigit(n) <==> m < n
    ensures HexDigit(m) == HexDigit(n) <==> m == n
  {
  }

  lemma HalvesOrdered(x: bv8, y: bv8)
    ensures x < y <==> x >> 4 < y >> 4 || (x >> 4 == y >> 4 && x & 15 < y & 15)
    ensures x == y <==> x >> 4 == y >> 4 && x & 15 == y & 15
  {
  }

  /** The order of the texts is the order of the bytes. */
  lemma {:induction false} EncodeOrdered(a: seq<bv8>, b: seq<bv8>)
    ensures LexLe(Encode(a), Encode(b)) <==> BytesLe(a, b)
  {
    if a != [] && b != [] {
      Halves(a[0]);
      Halves(b[0]);
      HalvesOrdered(a[0], b[0]);
      DigitsOrdered(a[0] >> 4, b[0] >> 4);
      DigitsOrdered(a[0] & 15, b[0] & 15);
      EncodeOrdered(a[1..], b[1..]);
      LexPairs(HexDigit(a[0] >> 4), HexDigit(a[0] & 15), Encode(a[1..]), HexDigit(b[0] >> 4), HexDigit(b[0] & 15), Encode(b[1..]));
    }
  }

  lemma LexPairs(p: char, q: char, s: string, p': char, q': char, s': string)
    ensures LexLe([p, q] + s, [p', q'] + s') <==> p < p' || (p == p' && (q < q' || (q == q' && LexLe(s, s'))))
  {
    assert ([p, q] + s)[1..] == [q] + s && ([p', q'] + s')[1..] == [q'] + s';
    assert ([q] + s)[1..] == s && ([q'] + s')[1..] == s';
  }

  /** Any other text is refused: by its length when it is the text of some bytes, otherwise as no hexadecimal at all. */
  lemma ParseRefusal(s: string, n: nat)
    ensures ParseHashHex(s) == Err(WrongLength(n)) <==> n != 32 && exists bytes: seq<bv8> :: |bytes| == n && Lower(s) == Encode(bytes)
    ensures ParseHashHex(s) == Err(InvalidHex) <==> forall bytes: seq<bv8> :: Lower(s) != Encode(bytes)
  {
    forall bytes: seq<bv8> ensures Decode(s) == Some(bytes) <==> Lower(s) == Encode(bytes) {
      DecodeMeaning(s, bytes);
    }
    if Decode(s).Some? {
      assert Lower(s) == Encode(Decode(s).value);
    }
  }

  lemma DecodeStep(s: string, bytes: seq<bv8>)
    requires |s| >= 2 && bytes != []
    ensures Decode(s) == Some(bytes) <==>
      && Nibble(s[0]) == Some(bytes[0] >> 4) && Nibble(s[1]) == Some(bytes[0] & 15)
      && Decode(s[2..]) == Some(bytes[1..])
  {
    var b := bytes[0];
    Halves(b);
    NibbleRange(s[0]);
    NibbleRange(s[1]);
    if Nibble(s[0]).Some? && Nibble(s[1]).Some? {
      var hi, lo := Nibble(s[0]).value, Nibble(s[1]).value;
      Whole(hi, lo);
      if Decode(s[2..]).Some? {
        var rest := Decode(s[2..]).value;
        assert Decode(s).value[0] == ((hi << 4) | lo) && Decode(s).value[1..] == rest;
        assert bytes == [b] + bytes[1..];
      }
    }
  }

  lemma EncodeStep(s: string, bytes: seq<bv8>)
    requires |s| >= 2 && bytes != []
    ensures Lower(s) == Encode(bytes) <==>
      && LowerChar(s[0]) == HexDigit(bytes[0] >> 4) && LowerChar(s[1]) == HexDigit(bytes[0] & 15)
      && Lower(s[2..]) == Encode(bytes[1..])
  {
    var head, tail := [HexDigit(bytes[0] >> 4), HexDigit(bytes[0] & 15)], Encode(bytes[1..]);
    assert Lower(s) == [LowerChar(s[0]), LowerChar(s[1])] + Lower(s[2..]);
    assert (head + tail)[0] == head[0] && (head + tail)[1] == head[1] && (head + tail)[2..] == tail;
    assert Lower(s)[2..] == Lower(s[2..]);
  }

  /** Decoding succeeds exactly on the upper- or lower-case text of some bytes, and yields those bytes. */
  lemma {:induction false} DecodeMeaning(s: string, bytes: seq<bv8>)
    ensures Decode(s) == Some(bytes) <==> Lower(s) == Encode(bytes)
    decreases |bytes|
  {
    EncodedText(bytes);
    if |s| >= 2 && bytes != [] {
      Halves(bytes[0]);
      DecodeMeaning(s[2..], bytes[1..]);
      DecodeStep(s, bytes);
      EncodeStep(s, bytes);
      NibbleMeaning(s[0], bytes[0] >> 4);
      NibbleMeaning(s[1], bytes[0] & 15);
    }
  }

  lemma EncodeInjective(a: seq<bv8>, b: seq<bv8>)
    requires Encode(a) == Encode(b)
    ensures a == b
  {
    EncodedText(a);
    DecodeMeaning(Encode(a), a);
    DecodeMeaning(Encode(a), b);
  }

  /** `ParseHashHex` accepts exactly the 64-digit texts of a hash, in either case. */
  lemma ParseMeaning(s: string, h: Hash)
    ensures ParseHashHex(s) == Ok(h) <==> Lower(s) == Encode(h)
  {
    DecodeMeaning(s, h);
  }

  lemma ParseEncoded(h: Hash)
    ensures ParseHashHex(Encode(h)) == Ok(h)
  {
    EncodedText(h);
    ParseMeaning(Encode(h), h);
  }

  /** Decodes a list in order, stopping at the first bad entry and naming its index. */
  method ParseHashesHex(hexes: seq<string>) returns (r: Result<seq<Hash>, (nat, HashError)>)
    ensures r.Ok? ==> |r.value| == |hexes| && forall i :: 0 <= i < |hexes| ==> Lower(hexes[i]) == Encode(r.value[i])
    ensures r.Err? ==>
      && r.error.0 < |hexes| && ParseHashHex(hexes[r.error.0]) == Err(r.error.1)
      && forall i :: 0 <= i < r.error.0 ==> ParseHashHex(hexes[i]).Ok?
  {
    var out: seq<Hash> := [];
    for i := 0 to |hexes|
      invariant |out| == i
      invariant forall j :: 0 <= j < i ==> ParseHashHex(hexes[j]).Ok? && Lower(hexes[j]) == Encode(out[j])
    {
      match ParseHashHex(hexes[i]) {
        case Err(e) => return Err((i, e));
        case Ok(h) =>
          ParseMeaning(hexes[i], h);
          out := out + [h];
      }
    }
    return Ok(out);
  }

  lemma EncodeTail(bytes: seq<bv8>, i: nat, s: string)
    requires i < |bytes|
    ensures bytes[i] >> 4 < 16 && bytes[i] & 15 < 16
    ensures s + Encode(bytes[i..]) == s + [HexDigit(bytes[i] >> 4), HexDigit(bytes[i] & 15)] + Encode(bytes[i + 1..])
  {
    Halves(bytes[i]);
    assert bytes[i..][1..] == bytes[i + 1..];
  }

  /** The Rust rendering of a PDQ hash, one pushed byte at a time, is the same text. */
  method ToHex(hash: Hash) returns (s: string)
    ensures s == Encode(hash) && |s| == 64
  {
    s := "";
    for i := 0 to |hash|
      invariant s + Encode(hash[i..]) == Encode(hash)
    {
      EncodeTail(hash, i, s);
      var b := hash[i];
      Halves(b);
      s := s + [HexDigit(b >> 4), HexDigit(b & 15)];
    }
    EncodedText(hash);
  }
}
