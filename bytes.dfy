/** Bytes on the wire and the UTF-8 encoding that `str::as_bytes` exposes. */
module Bytes {

  newtype byte = x: int | 0 <= x < 256

  /** True when every character of `s` is in the 7-bit ASCII range. */
  predicate IsAscii(s: string) {
    forall i :: 0 <= i < |s| ==> s[i] as int < 0x80
  }

  /** The UTF-8 encoding of one Unicode scalar value (RFC 3629, section 3). */
  function EncodeChar(c: char): (r: seq<byte>)
    ensures 1 <= |r| <= 4
    ensures (c as int < 0x80) <==> |r| == 1
    ensures c as int < 0x80 ==> r[0] as int == c as int
    ensures c as int >= 0x80 ==> r[0] >= 0xC0 && forall i :: 1 <= i < |r| ==> 0x80 <= r[i] < 0xC0
  {
    var n := c as int;
    if n < 0x80 then
      [n as byte]
    else if n < 0x800 then
      [(0xC0 + n / 0x40) as byte, (0x80 + n % 0x40) as byte]
    else if n < 0x1_0000 then
      [(0xE0 + n / 0x1000) as byte, (0x80 + (n / 0x40) % 0x40) as byte, (0x80 + n % 0x40) as byte]
    else
      [(0xF0 + n / 0x4_0000) as byte, (0x80 + (n / 0x1000) % 0x40) as byte,
       (0x80 + (n / 0x40) % 0x40) as byte, (0x80 + n % 0x40) as byte]
  }

  /** The bytes of a string as `str::as_bytes` gives them: its UTF-8 encoding. */
  function Utf8(s: string): (r: seq<byte>)
    ensures |s| <= |r| <= 4 * |s|
  {
    if s == [] then [] else EncodeChar(s[0]) + Utf8(s[1..])
  }

  /** Encoding distributes over concatenation, so a response built by `format!`
      encodes piece by piece. */
  lemma {:induction false} Utf8Append(a: string, b: string)
    ensures Utf8(a + b) == Utf8(a) + Utf8(b)
  {
    if a == [] {
      assert a + b == b;
    } else {
      assert (a + b)[0] == a[0];
      assert (a + b)[1..] == a[1..] + b;
      var e := EncodeChar(a[0]);
      assert Utf8(a + b) == e + Utf8(a[1..] + b);
      Utf8Append(a[1..], b);
      assert Utf8(a) == e + Utf8(a[1..]);
      SeqAssoc(e, Utf8(a[1..]), Utf8(b));
    }
  }

  lemma {:induction false} SeqAssoc(x: seq<byte>, y: seq<byte>, z: seq<byte>)
    ensures x + (y + z) == (x + y) + z
  {
  }

  /** An ASCII string encodes to one byte per character, each byte the
      character's code. */
  lemma {:induction false} Utf8OfAscii(s: string)
    requires IsAscii(s)
    ensures |Utf8(s)| == |s|
    ensures forall i :: 0 <= i < |s| ==> Utf8(s)[i] as int == s[i] as int
  {
    if s != [] {
      assert IsAscii(s[1..]) by {
        forall i | 0 <= i < |s| - 1 ensures s[1..][i] as int < 0x80 {
          assert s[1..][i] == s[i + 1];
        }
      }
      Utf8OfAscii(s[1..]);
      assert s[0] as int < 0x80;
      forall i | 0 <= i < |s| ensures Utf8(s)[i] as int == s[i] as int {
        if i > 0 {
          assert Utf8(s)[i] == Utf8(s[1..])[i - 1];
          assert s[1..][i - 1] == s[i];
        }
      }
    }
  }

  /** Up to the first non-ASCII character, the encoding is the text's codes. */
  lemma {:induction false} Utf8AsciiPrefix(s: string, i: nat)
    requires i < |s| && forall k :: 0 <= k <= i ==> s[k] as int < 0x80
    ensures i < |Utf8(s)| && Utf8(s)[i] as int == s[i] as int
  {
    assert Utf8(s) == EncodeChar(s[0]) + Utf8(s[1..]);
    assert |EncodeChar(s[0])| == 1;
    if i > 0 {
      forall k | 0 <= k <= i - 1 ensures s[1..][k] as int < 0x80 {
        assert s[1..][k] == s[k + 1];
      }
      Utf8AsciiPrefix(s[1..], i - 1);
      assert s[1..][i - 1] == s[i];
    }
  }

  /** The encoding is exactly as long as the text when, and only when, the
      text is ASCII. */
  lemma {:induction false} Utf8Length(s: string)
    ensures |Utf8(s)| == |s| <==> IsAscii(s)
  {
    if s != [] {
      Utf8Length(s[1..]);
      if IsAscii(s) {
        assert IsAscii(s[1..]) by {
          forall i | 0 <= i < |s| - 1 ensures s[1..][i] as int < 0x80 {
            assert s[1..][i] == s[i + 1];
          }
        }
        assert s[0] as int < 0x80;
      } else {
        var k :| 0 <= k < |s| && s[k] as int >= 0x80;
        if k > 0 {
          assert s[1..][k - 1] == s[k];
          assert !IsAscii(s[1..]);
        }
      }
    }
  }
}
