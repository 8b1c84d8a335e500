/** The WAF's URL decoder: `%XX` and `+` are decoded character by character, and the decoder is applied up to three
    times so that a payload hidden under several layers of encoding is still scanned. */
module Waf {
  import opened Wrappers

  const MAX_DECODE_PASSES: nat := 3

  /** The value of a hexadecimal digit of either case. */
  function HexDigit(c: char): (d: Option<nat>)
    ensures d.Some? ==> d.value < 16
  {
    if '0' <= c <= '9' then Some((c - '0') as nat)
    else if 'a' <= c <= 'f' then Some((c - 'a') as nat + 10)
    else if 'A' <= c <= 'F' then Some((c - 'A') as nat + 10)
    else None
  }

  predicate IsHex(c: char) {
    HexDigit(c).Some?
  }

  /** The character of an escape, below code point 256. */
  function Escaped(h1: char, h2: char): char
    requires IsHex(h1) && IsHex(h2)
  {
    (16 * HexDigit(h1).value + HexDigit(h2).value) as char
  }

  /** One pass over the text. A `%` consumes the two characters after it whether or not they are digits; at the end of
      the text a `%` with one character after it swallows that character. */
  function Decode(s: string): string {
    if |s| == 0 then ""
    else if s[0] == '%' then
      if |s| < 3 then "%"
      else if IsHex(s[1]) && IsHex(s[2]) then [Escaped(s[1], s[2])] + Decode(s[3..])
      else s[..3] + Decode(s[3..])
    else if s[0] == '+' then " " + Decode(s[1..])
    else [s[0]] + Decode(s[1..])
  }

  /** A pass continues with what the first piece of the text left over. */
  lemma DecodePiece(done: string, s: string, piece: string, n: nat)
    requires n <= |s| && Decode(s) == piece + Decode(s[n..])
    ensures done + Decode(s) == (done + piece) + Decode(s[n..])
  {
  }

  method UrlDecode(encoded: string) returns (decoded: string)
    ensures decoded == Decode(encoded)
  {
    decoded := "";
    var i := 0;
    while i < |encoded|
      invariant 0 <= i <= |encoded|
      invariant decoded + Decode(encoded[i..]) == Decode(encoded)
    {
      var c := encoded[i];
      ghost var rest := encoded[i..];
      var piece, n := [c], 1;
      if c == '%' {
        if i + 2 < |encoded| {
          var h1, h2 := encoded[i + 1], encoded[i + 2];
          n := 3;
          if IsHex(h1) && IsHex(h2) {
            piece := [Escaped(h1, h2)];
          } else {
            piece := [c, h1, h2];
            assert rest[..3] == piece;
          }
        } else {
          n := |encoded| - i;
          assert rest[n..] == "";
        }
      } else if c == '+' {
        piece := " ";
      }
      DecodePiece(decoded, rest, piece, n);
      decoded := decoded + piece;
      i := i + n;
      assert encoded[i..] == rest[n..];
    }
    assert encoded[i..] == "";
  }

  /** Text without a percent sign decodes character by character, each plus sign to a space. */
  lemma {:induction false} DecodePlain(s: string)
    requires '%' !in s
    ensures |Decode(s)| == |s|
    ensures forall i :: 0 <= i < |s| ==> Decode(s)[i] == if s[i] == '+' then ' ' else s[i]
  {
    if |s| > 0 {
      DecodePlain(s[1..]);
    }
  }

  /** What follows plain text is decoded as if it stood alone. */
  lemma {:induction false} DecodeAfterPlain(s: string, t: string)
    requires '%' !in s
    ensures Decode(s + t) == Decode(s) + Decode(t)
  {
    if |s| == 0 {
      assert s + t == t;
    } else {
      DecodeAfterPlain(s[1..], t);
      PlainFirst(s, t);
      PlainFirst(s, "");
      assert s + "" == s && s[1..] + "" == s[1..];
      Regroup(Decode, s, t);
    }
  }

  function Plain(c: char): char {
    if c == '+' then ' ' else c
  }

  lemma PlainFirst(s: string, t: string)
    requires |s| > 0 && s[0] != '%'
    ensures Decode(s + t) == [Plain(s[0])] + Decode(s[1..] + t)
  {
    assert (s + t)[1..] == s[1..] + t && (s + t)[0] == s[0];
  }

  lemma Regroup(decode: string -> string, s: string, t: string)
    requires |s| > 0 && decode(s[1..] + t) == decode(s[1..]) + decode(t)
    requires decode(s + t) == [Plain(s[0])] + decode(s[1..] + t) && decode(s) == [Plain(s[0])] + decode(s[1..])
    ensures decode(s + t) == decode(s) + decode(t)
  {
  }

  /** There, an escape decodes to its character, two characters after a percent sign that are no escape stay with it, and one
      character alone after it is lost. */
  lemma DecodeEscape(a: char, b: char, rest: string)
    ensures Decode(['%', a, b] + rest)
         == (if IsHex(a) && IsHex(b) then [Escaped(a, b)] else ['%', a, b]) + Decode(rest)
    ensures Decode(['%', a]) == "%" && Decode("%") == "%"
  {
    var t := ['%', a, b] + rest;
    assert t[3..] == rest && t[..3] == ['%', a, b];
  }

  /** The digits are the hexadecimal ones, of either case, and an escape is the character they number. */
  lemma EscapeIsHex(a: char, b: char, x: nat, y: nat)
    requires x < 16 && y < 16
    requires a == "0123456789abcdef"[x] || a == "0123456789ABCDEF"[x]
    requires b == "0123456789abcdef"[y] || b == "0123456789ABCDEF"[y]
    ensures IsHex(a) && IsHex(b) && Escaped(a, b) as nat == 16 * x + y
  {
    HexDigitIs(a, x);
    HexDigitIs(b, y);
  }

  lemma HexDigitIs(c: char, x: nat)
    requires x < 16 && (c == "0123456789abcdef"[x] || c == "0123456789ABCDEF"[x])
    ensures HexDigit(c) == Some(x)
  {
    if x >= 8 {
      assert x == 8 || x == 9 || x == 10 || x == 11 || x == 12 || x == 13 || x == 14 || x == 15;
    }
  }

  /** And nothing else is. */
  lemma OnlyHexDigits(c: char)
    ensures IsHex(c) ==> c in "0123456789" || c in "abcdef" || c in "ABCDEF"
  {
    if '0' <= c <= '9' {
      assert "0123456789"[(c - '0') as nat] == c;
    } else if 'a' <= c <= 'f' {
      assert "abcdef"[(c - 'a') as nat] == c;
    } else if 'A' <= c <= 'F' {
      assert "ABCDEF"[(c - 'A') as nat] == c;
    }
  }

  /** n passes, one after the other. */
  function DecodeTimes(s: string, n: nat): string
    decreases n
  {
    if n == 0 then s else DecodeTimes(Decode(s), n - 1)
  }

  /** Up to three passes, stopping when a pass changes nothing, are three passes. */
  method UrlDecodeRecursive(encoded: string) returns (current: string)
    ensures current == DecodeTimes(encoded, MAX_DECODE_PASSES)
  {
    current := UrlDecode(encoded);
    for i := 1 to MAX_DECODE_PASSES
      invariant DecodeTimes(current, MAX_DECODE_PASSES - i) == DecodeTimes(encoded, MAX_DECODE_PASSES)
    {
      var next := UrlDecode(current);
      if next == current {
        FixedPoint(current, MAX_DECODE_PASSES - i);
        break;
      }
      current := next;
    }
  }

  lemma {:induction false} FixedPoint(s: string, n: nat)
    requires Decode(s) == s
    ensures DecodeTimes(s, n) == s
  {
    if n > 0 { FixedPoint(s, n - 1); }
  }

  /** Decoding never lengthens the text. */
  lemma {:induction false} DecodeShrinks(s: string)
    ensures |Decode(s)| <= |s|
  {
    if |s| > 0 {
      if s[0] == '%' {
        if |s| >= 3 { DecodeShrinks(s[3..]); }
      } else {
        DecodeShrinks(s[1..]);
      }
    }
  }

  lemma {:induction false} DecodeTimesShrinks(s: string, n: nat)
    ensures |DecodeTimes(s, n)| <= |s|
    decreases n
  {
    if n > 0 {
      DecodeShrinks(s);
      DecodeTimesShrinks(Decode(s), n - 1);
    }
  }

  // ---------------------------------------------------------------- encodings

  /** e is s with every character percent-encoded, digits of either case. */
  predicate Encodes(e: string, s: string) {
    if |s| == 0 then |e| == 0
    else
      && |e| >= 3 && e[0] == '%' && IsHex(e[1]) && IsHex(e[2])
      && Escaped(e[1], e[2]) == s[0]
      && Encodes(e[3..], s[1..])
  }

  /** One pass undoes one encoding. */
  lemma {:induction false} DecodeUndoesEncode(e: string, s: string)
    requires Encodes(e, s)
    ensures Decode(e) == s
  {
    if |s| > 0 {
      DecodeUndoesEncode(e[3..], s[1..]);
      assert s == [s[0]] + s[1..];
    }
  }

  /** A chain of encodings, the outermost first. */
  predicate Layers(chain: seq<string>) {
    |chain| > 0 && forall i :: 0 <= i < |chain| - 1 ==> Encodes(chain[i], chain[i + 1])
  }

  lemma {:induction false} PeelLayers(chain: seq<string>, n: nat)
    requires Layers(chain) && |chain| - 1 <= n
    ensures DecodeTimes(chain[0], n) == DecodeTimes(chain[|chain| - 1], n - (|chain| - 1))
  {
    if |chain| > 1 {
      assert Encodes(chain[0], chain[1]);
      DecodeUndoesEncode(chain[0], chain[1]);
      LayersTail(chain);
      PeelLayers(chain[1..], n - 1);
      DecodeFirst(chain[0], chain[1], n);
    }
  }

  lemma LayersTail(chain: seq<string>)
    requires Layers(chain) && |chain| > 1
    ensures Layers(chain[1..])
  {
    var tail := chain[1..];
    forall i | 0 <= i < |tail| - 1 ensures Encodes(tail[i], tail[i + 1]) {
      assert Encodes(chain[i + 1], chain[i + 1 + 1]);
    }
  }

  lemma DecodeFirst(s: string, t: string, n: nat)
    requires n > 0 && Decode(s) == t
    ensures DecodeTimes(s, n) == DecodeTimes(t, n - 1)
  {
  }

  /** Whatever the number of passes, three in the decoder's case: text encoded k times, no more often than there are passes,
      comes out as that many further decodings of the original as passes are left, so as the original itself when it
      holds nothing to decode. */
  lemma LayeredDecoding(chain: seq<string>, passes: nat)
    requires Layers(chain) && |chain| - 1 <= passes
    ensures DecodeTimes(chain[0], passes) == DecodeTimes(chain[|chain| - 1], passes - (|chain| - 1))
    ensures Decode(chain[|chain| - 1]) == chain[|chain| - 1] ==> DecodeTimes(chain[0], passes) == chain[|chain| - 1]
  {
    PeelLayers(chain, passes);
    var s := chain[|chain| - 1];
    if Decode(s) == s { FixedPoint(s, passes - (|chain| - 1)); }
  }

  function HexChar(d: nat): (c: char)
    requires d < 16
    ensures HexDigit(c) == Some(d)
  {
    if d < 10 then '0' + d as char else 'A' + (d - 10) as char
  }

  /** The upper-case encoding of a text below code point 256. */
  function Encode(s: string): string
    requires forall i :: 0 <= i < |s| ==> s[i] as nat < 256
  {
    if |s| == 0 then ""
    else ['%', HexChar(s[0] as nat / 16), HexChar(s[0] as nat % 16)] + Encode(s[1..])
  }

  /** Every text below code point 256 has an encoding, and it can be encoded again. */
  lemma {:induction false} EncodeEncodes(s: string)
    requires forall i :: 0 <= i < |s| ==> s[i] as nat < 256
    ensures Encodes(Encode(s), s)
    ensures forall i :: 0 <= i < |Encode(s)| ==> Encode(s)[i] as nat < 256
  {
    if |s| > 0 {
      EncodeEncodes(s[1..]);
      assert Encode(s)[3..] == Encode(s[1..]);
      HexCharIsAscii(s[0] as nat / 16);
      HexCharIsAscii(s[0] as nat % 16);
    }
  }

  lemma HexCharIsAscii(d: nat)
    requires d < 16
    ensures HexChar(d) as nat < 256
  {
  }

  /** When decoding leaves a text alone. The characters that reach the decoder are those not swallowed by a `%` before
      them: none of these is a `+`, and none is a `%` with two digits, or with just one character, after it. */
  predicate NothingToDecode(s: string) {
    if |s| == 0 then true
    else if s[0] == '%' then
      if |s| < 3 then |s| == 1 else !(IsHex(s[1]) && IsHex(s[2])) && NothingToDecode(s[3..])
    else s[0] != '+' && NothingToDecode(s[1..])
  }

  lemma {:induction false} FixedIffNothingToDecode(s: string)
    ensures Decode(s) == s <==> NothingToDecode(s)
  {
    if |s| > 0 {
      if s[0] == '%' {
        if |s| >= 3 {
          FixedIffNothingToDecode(s[3..]);
          DecodeShrinks(s[3..]);
          assert s == s[..3] + s[3..];
        }
      } else {
        FixedIffNothingToDecode(s[1..]);
        assert s == [s[0]] + s[1..];
      }
    }
  }
}
