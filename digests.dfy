/**
 * The text form of a content fingerprint (Program.cs line 206): the MD5 digest of
 * a file is printed by `BitConverter.ToString` as dash-separated upper-case hex
 * pairs, the dashes are removed with `Replace("-", "")` and the result is
 * lower-cased with `ToLowerInvariant`.  MD5 itself is not modelled here: the
 * pass receives it as a function from file contents to a 16-byte digest.
 */
module Digests {
  import opened Strings

  type byte = x: int | 0 <= x < 256

  /** An MD5 digest is always 16 bytes long. */
  type Digest = d: seq<byte> | |d| == 16 witness seq(16, i => 0)

  /** The hex digit for 0..15, upper case as `BitConverter` writes it. */
  function UpperHexDigit(n: int): char
    requires 0 <= n < 16
  {
    if n < 10 then (48 + n) as char else (55 + n) as char
  }

  /** The hex digit for 0..15, lower case. */
  function LowerHexDigit(n: int): char
    requires 0 <= n < 16
  {
    if n < 10 then (48 + n) as char else (87 + n) as char
  }

  predicate IsLowerHexDigit(c: char)
  {
    '0' <= c <= '9' || 'a' <= c <= 'f'
  }

  function UpperPair(b: byte): string
  {
    [UpperHexDigit(b / 16), UpperHexDigit(b % 16)]
  }

  function LowerPair(b: byte): string
  {
    [LowerHexDigit(b / 16), LowerHexDigit(b % 16)]
  }

  /** `BitConverter.ToString(bytes)`: "0A-FF-3C"; the empty array gives "". */
  function BitConverterToString(bs: seq<byte>): string
  {
    if |bs| == 0 then ""
    else if |bs| == 1 then UpperPair(bs[0])
    else UpperPair(bs[0]) + "-" + BitConverterToString(bs[1..])
  }

  /** `ToLowerInvariant` on the ASCII letters; every other character is kept. */
  function LowerChar(c: char): char
  {
    if 'A' <= c <= 'Z' then (c as int + 32) as char else c
  }

  function ToLowerInvariant(s: string): string
  {
    if |s| == 0 then "" else [LowerChar(s[0])] + ToLowerInvariant(s[1..])
  }

  /** The digest string exactly as line 206 builds it. */
  function HexString(bs: seq<byte>): string
  {
    ToLowerInvariant(Replace(BitConverterToString(bs), "-", ""))
  }

  /** Reference encoding: two lower-case hex digits per byte, nothing between them. */
  function LowerHex(bs: seq<byte>): string
  {
    if |bs| == 0 then "" else LowerPair(bs[0]) + LowerHex(bs[1..])
  }

  lemma {:induction false} ToLowerConcat(a: string, b: string)
    ensures ToLowerInvariant(a + b) == ToLowerInvariant(a) + ToLowerInvariant(b)
    decreases |a|
  {
    if |a| == 0 {
      assert a + b == b;
    } else {
      assert (a + b)[1..] == a[1..] + b;
      ToLowerConcat(a[1..], b);
    }
  }

  lemma LowerUpperPair(b: byte)
    ensures Replace(UpperPair(b), "-", "") == UpperPair(b)
    ensures ToLowerInvariant(UpperPair(b)) == LowerPair(b)
  {
    var p := UpperPair(b);
    assert p[1..][1..] == [];
    assert p[..1] != "-" && p[1..][..1] != "-";
    assert Replace(p[1..], "-", "") == [p[1]] + Replace([], "-", "");
    assert p == [p[0]] + p[1..];
    assert ToLowerInvariant(p) == [LowerChar(p[0])] + ([LowerChar(p[1])] + ToLowerInvariant([]));
  }

  /** Line 206 produces exactly the reference encoding. */
  lemma {:induction false} HexStringIsLowerHex(bs: seq<byte>)
    ensures HexString(bs) == LowerHex(bs)
    decreases |bs|
  {
    if |bs| == 0 {
    } else if |bs| == 1 {
      LowerUpperPair(bs[0]);
      assert LowerHex(bs) == LowerPair(bs[0]) + LowerHex([]);
    } else {
      var head, rest := UpperPair(bs[0]), BitConverterToString(bs[1..]);
      ReplaceCharConcat(head + "-", rest, "-", "");
      ReplaceCharConcat(head, "-", "-", "");
      assert Replace("-", "-", "") == "";
      LowerUpperPair(bs[0]);
      assert Replace(BitConverterToString(bs), "-", "") == head + Replace(rest, "-", "");
      ToLowerConcat(head, Replace(rest, "-", ""));
      HexStringIsLowerHex(bs[1..]);
    }
  }

  lemma {:induction false} LowerHexShape(bs: seq<byte>)
    ensures |LowerHex(bs)| == 2 * |bs|
    ensures forall i :: 0 <= i < |LowerHex(bs)| ==> IsLowerHexDigit(LowerHex(bs)[i])
    decreases |bs|
  {
    if |bs| > 0 {
      LowerHexShape(bs[1..]);
      var p := LowerPair(bs[0]);
      assert IsLowerHexDigit(p[0]) && IsLowerHexDigit(p[1]);
    }
  }

  lemma LowerPairInjective(a: byte, b: byte)
    requires LowerPair(a) == LowerPair(b)
    ensures a == b
  {
    assert LowerPair(a)[0] == LowerPair(b)[0];
    assert LowerPair(a)[1] == LowerPair(b)[1];
    assert a == 16 * (a / 16) + a % 16;
    assert b == 16 * (b / 16) + b % 16;
  }

  lemma {:induction false} LowerHexInjective(a: seq<byte>, b: seq<byte>)
    requires LowerHex(a) == LowerHex(b)
    ensures a == b
    decreases |a|
  {
    LowerHexShape(a);
    LowerHexShape(b);
    if |a| > 0 {
      var ha, hb := LowerHex(a), LowerHex(b);
      assert ha[..2] == LowerPair(a[0]) && hb[..2] == LowerPair(b[0]);
      LowerPairInjective(a[0], b[0]);
      assert ha[2..] == LowerHex(a[1..]) && hb[2..] == LowerHex(b[1..]);
      LowerHexInjective(a[1..], b[1..]);
      assert a == [a[0]] + a[1..] && b == [b[0]] + b[1..];
    }
  }

  /** The digest string of an MD5 digest is always 32 lower-case hex digits. */
  lemma DigestStringFormat(d: Digest)
    ensures |HexString(d)| == 32
    ensures forall i :: 0 <= i < 32 ==> IsLowerHexDigit(HexString(d)[i])
  {
    HexStringIsLowerHex(d);
    LowerHexShape(d);
  }

  /** Two digests print the same exactly when they are the same digest. */
  lemma DigestStringInjective(a: seq<byte>, b: seq<byte>)
    ensures HexString(a) == HexString(b) <==> a == b
  {
    HexStringIsLowerHex(a);
    HexStringIsLowerHex(b);
    if HexString(a) == HexString(b) {
      LowerHexInjective(a, b);
    }
  }
}
