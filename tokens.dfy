/**
 * Unique random tokens (App/Token.php): a raw value that is either supplied
 * by the caller or made of 16 random bytes in lowercase hexadecimal, and its
 * keyed hash.
 *
 * The random source, the HMAC-SHA256 primitive and the secret key are
 * parameters: the 16 bytes are drawn by the caller, HMAC-SHA256 (RFC 2104
 * over FIPS 180-4 SHA-256) is an arbitrary function whose only known
 * property is the shape of its output, 64 lowercase hexadecimal characters.
 */
module Tokens {
  import opened Wrappers
  import Php

  newtype byte = x: int | 0 <= x < 256

  /** Number of random bytes in a generated token: 128 bits. */
  const RandomByteCount: nat := 16

  predicate IsLowerHexChar(c: char)
  {
    '0' <= c <= '9' || 'a' <= c <= 'f'
  }

  predicate IsLowerHex(s: string)
  {
    forall i :: 0 <= i < |s| ==> IsLowerHexChar(s[i])
  }

  /** The value of one lowercase hexadecimal digit. */
  function DigitValue(c: char): (n: int)
    requires IsLowerHexChar(c)
    ensures 0 <= n < 16
  {
    if c <= '9' then c as int - '0' as int else c as int - 'a' as int + 10
  }

  /** The lowercase hexadecimal digit of a nibble (base16 alphabet, section 8 of RFC 4648, lower case). */
  function HexDigit(n: int): (c: char)
    requires 0 <= n < 16
    ensures IsLowerHexChar(c) && DigitValue(c) == n
  {
    if n < 10 then ('0' as int + n) as char else ('a' as int + n - 10) as char
  }

  lemma HexDigitOfValue(c: char)
    requires IsLowerHexChar(c)
    ensures HexDigit(DigitValue(c)) == c
  {
  }

  /** `bin2hex`: two lowercase hexadecimal digits per byte, high nibble first. */
  function BinToHex(bytes: seq<byte>): (s: string)
    ensures |s| == 2 * |bytes| && IsLowerHex(s)
  {
    if bytes == [] then []
    else [HexDigit(bytes[0] as int / 16), HexDigit(bytes[0] as int % 16)] + BinToHex(bytes[1..])
  }

  /** The inverse of `bin2hex` on lowercase input: None when the length is odd or a character is not a digit. */
  function HexToBin(s: string): (r: Option<seq<byte>>)
    ensures r.Some? ==> |s| == 2 * |r.value|
  {
    if s == [] then Some([])
    else if |s| < 2 || !IsLowerHexChar(s[0]) || !IsLowerHexChar(s[1]) then None
    else match HexToBin(s[2..])
      case None => None
      case Some(rest) => Some([(DigitValue(s[0]) * 16 + DigitValue(s[1])) as byte] + rest)
  }

  lemma {:induction false} HexRoundTrip(bytes: seq<byte>)
    ensures HexToBin(BinToHex(bytes)) == Some(bytes)
  {
    if bytes != [] {
      var s := BinToHex(bytes);
      assert s[2..] == BinToHex(bytes[1..]);
      HexRoundTrip(bytes[1..]);
      var b := bytes[0] as int;
      assert DigitValue(s[0]) * 16 + DigitValue(s[1]) == b;
      assert [bytes[0]] + bytes[1..] == bytes;
    }
  }

  lemma {:induction false} HexToBinRoundTrip(s: string, bytes: seq<byte>)
    requires HexToBin(s) == Some(bytes)
    ensures BinToHex(bytes) == s
  {
    if s != [] {
      var rest := HexToBin(s[2..]).value;
      HexToBinRoundTrip(s[2..], rest);
      var hi, lo := DigitValue(s[0]), DigitValue(s[1]);
      assert bytes == [(hi * 16 + lo) as byte] + rest;
      assert bytes[1..] == rest;
      SplitByte(hi, lo);
      HexDigitOfValue(s[0]);
      HexDigitOfValue(s[1]);
      assert BinToHex(bytes) == [HexDigit(hi), HexDigit(lo)] + BinToHex(rest);
      assert s == [s[0], s[1]] + s[2..];
    }
  }

  /** A byte made of two nibbles splits back into them. */
  lemma SplitByte(hi: int, lo: int)
    requires 0 <= hi < 16 && 0 <= lo < 16
    ensures (hi * 16 + lo) / 16 == hi && (hi * 16 + lo) % 16 == lo
  {
  }

  /** Distinct byte strings have distinct hexadecimal encodings. */
  lemma BinToHexInjective(a: seq<byte>, b: seq<byte>)
    requires BinToHex(a) == BinToHex(b)
    ensures a == b
  {
    HexRoundTrip(a);
    HexRoundTrip(b);
  }

  /** HMAC-SHA256 as `hash_hmac('sha256', message, key)`: 64 lowercase hexadecimal characters. */
  type Hmac = f: (string, string) -> string | forall message, key :: IsDigest(f(message, key))
    witness (message: string, key: string) => ZeroDigest

  const ZeroDigest: string := seq(64, _ => '0')

  predicate IsDigest(s: string)
  {
    |s| == 64 && IsLowerHex(s)
  }

  /** A token holds its raw value; nothing changes it after construction. */
  datatype Token = Token(value: string)
  {
    /** `getValue`. */
    function GetValue(): string
    {
      value
    }

    /** `getHash`: the keyed hash of the raw value under the secret key. */
    function GetHash(key: string, hmac: Hmac): (h: string)
      ensures IsDigest(h)
    {
      hmac(value, key)
    }
  }

  /**
   * `new Token($token_value)`: a truthy supplied value is kept as it is;
   * otherwise (null, "" or "0") the value is the hexadecimal form of the
   * 16 random bytes drawn by the caller.
   */
  function NewToken(supplied: Option<string>, random: seq<byte>): (t: Token)
    requires |random| == RandomByteCount
    ensures Php.Truthy(supplied) ==> t.GetValue() == supplied.value
    ensures !Php.Truthy(supplied) ==>
      |t.GetValue()| == 32 && IsLowerHex(t.GetValue()) && HexToBin(t.GetValue()) == Some(random)
  {
    if Php.Truthy(supplied) then Token(supplied.value)
    else
      HexRoundTrip(random);
      Token(BinToHex(random))
  }

  /** A generated value is truthy, so wrapping it again gives back the same token, whatever bytes the second construction draws. */
  lemma RewrapGenerated(random: seq<byte>, other: seq<byte>)
    requires |random| == RandomByteCount && |other| == RandomByteCount
    ensures var t := NewToken(None, random);
      Php.Truthy(Some(t.GetValue())) && NewToken(Some(t.GetValue()), other) == t
  {
    var t := NewToken(None, random);
    assert |t.value| == 32;
    assert t.value != "" && t.value != "0";
  }

  /** Distinct random draws give distinct generated tokens, hence distinct cookie values. */
  lemma GeneratedTokensDistinct(r1: seq<byte>, r2: seq<byte>)
    requires |r1| == RandomByteCount && |r2| == RandomByteCount && r1 != r2
    ensures NewToken(None, r1).GetValue() != NewToken(None, r2).GetValue()
  {
  }
}
