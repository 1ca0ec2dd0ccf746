/** Byte strings: the lexicographic order of table keys, prefixes, and which
    strings are UTF-8. */
module Bytes {

  newtype Byte = x: int | 0 <= x < 256

  type Bytes = seq<Byte>

  /** Lexicographic order, which is also the order of UTF-8 strings. */
  predicate Less(a: Bytes, b: Bytes) {
    b != [] && (a == [] || a[0] < b[0] || (a[0] == b[0] && Less(a[1..], b[1..])))
  }

  predicate Leq(a: Bytes, b: Bytes) {
    a == b || Less(a, b)
  }

  predicate StartsWith(s: Bytes, p: Bytes) {
    p <= s
  }

  lemma {:induction false} LessIrreflexive(a: Bytes)
    ensures !Less(a, a)
  {
    if a != [] { LessIrreflexive(a[1..]); }
  }

  lemma {:induction false} LessTransitive(a: Bytes, b: Bytes, c: Bytes)
    requires Less(a, b) && Less(b, c)
    ensures Less(a, c)
  {
    if a != [] && a[0] == b[0] == c[0] { LessTransitive(a[1..], b[1..], c[1..]); }
  }

  lemma {:induction false} LessTotal(a: Bytes, b: Bytes)
    ensures Less(a, b) || a == b || Less(b, a)
  {
    if a != [] && b != [] && a[0] == b[0] {
      LessTotal(a[1..], b[1..]);
      if a[1..] == b[1..] { assert [a[0]] + a[1..] == a && [b[0]] + b[1..] == b; }
    }
  }

  lemma LessAsymmetric(a: Bytes, b: Bytes)
    requires Less(a, b)
    ensures !Less(b, a) && a != b
  {
    LessIrreflexive(a);
    if Less(b, a) { LessTransitive(a, b, a); }
  }

  /** A prefix comes first. */
  lemma {:induction false} PrefixComesFirst(p: Bytes, s: Bytes)
    requires StartsWith(s, p)
    ensures Leq(p, s)
  {
    if p != [] {
      PrefixComesFirst(p[1..], s[1..]);
      if p[1..] == s[1..] { assert [p[0]] + p[1..] == p && [s[0]] + s[1..] == s; }
    }
  }

  /** The strings with a given prefix are contiguous. */
  lemma {:induction false} PrefixIsContiguous(p: Bytes, a: Bytes, b: Bytes)
    requires Leq(p, a) && Less(a, b) && StartsWith(b, p)
    ensures StartsWith(a, p)
  {
    if p != [] && p != a {
      assert a != [] && b[0] == p[0];
      assert p[0] <= a[0] <= b[0];
      assert Leq(p[1..], a[1..]);
      PrefixIsContiguous(p[1..], a[1..], b[1..]);
      assert [p[0]] + p[1..] == p && [a[0]] + a[1..] == a;
    }
  }

  lemma {:induction false} LessAfterPrefix(p: Bytes, a: Bytes, b: Bytes)
    ensures Less(p + a, p + b) <==> Less(a, b)
  {
    if p == [] {
      assert p + a == a && p + b == b;
    } else {
      assert (p + a)[1..] == p[1..] + a && (p + b)[1..] == p[1..] + b;
      LessAfterPrefix(p[1..], a, b);
    }
  }

  /* ----- UTF-8, section 3.9 of the Unicode Standard (table 3-7) ----- */

  predicate Continues(b: Byte) {
    0x80 <= b <= 0xBF
  }

  predicate ValidUtf8(s: Bytes)
    decreases |s|
  {
    || s == []
    || (s[0] < 0x80 && ValidUtf8(s[1..]))
    || (|s| >= 2 && 0xC2 <= s[0] <= 0xDF && Continues(s[1]) && ValidUtf8(s[2..]))
    || (|s| >= 3 && ThreeBytes(s[0], s[1]) && Continues(s[2]) && ValidUtf8(s[3..]))
    || (|s| >= 4 && FourBytes(s[0], s[1]) && Continues(s[2]) && Continues(s[3]) && ValidUtf8(s[4..]))
  }

  predicate ThreeBytes(a: Byte, b: Byte) {
    0xE0 <= a <= 0xEF && Continues(b) && (a == 0xE0 ==> b >= 0xA0) && (a == 0xED ==> b <= 0x9F)
  }

  predicate FourBytes(a: Byte, b: Byte) {
    0xF0 <= a <= 0xF4 && Continues(b) && (a == 0xF0 ==> b >= 0x90) && (a == 0xF4 ==> b <= 0x8F)
  }

  /** The encoding form itself: one to four bytes, six bits in each that follows. */
  function EncodeChar(c: char): Bytes {
    var n := c as int;
    if n < 0x80 then [n as Byte]
    else if n < 0x800 then [(0xC0 + n / 64) as Byte, Tail(n)]
    else if n < 0x1_0000 then [(0xE0 + n / 4_096) as Byte, Tail(n / 64), Tail(n)]
    else [(0xF0 + n / 262_144) as Byte, Tail(n / 4_096), Tail(n / 64), Tail(n)]
  }

  function Tail(n: int): Byte {
    (0x80 + n % 64) as Byte
  }

  function Encode(s: string): Bytes {
    if s == [] then [] else EncodeChar(s[0]) + Encode(s[1..])
  }

  /** Every text is encoded as valid bytes. */
  lemma {:induction false} EncodeIsValid(s: string)
    ensures ValidUtf8(Encode(s))
  {
    if s != [] {
      EncodeIsValid(s[1..]);
      CharIsValid(s[0], Encode(s[1..]));
    }
  }

  lemma CharIsValid(c: char, rest: Bytes)
    requires ValidUtf8(rest)
    ensures ValidUtf8(EncodeChar(c) + rest)
  {
    var head := EncodeChar(c);
    HeadIsValid(c);
    assert (head + rest)[|head|..] == rest;
  }

  /** The head bytes of a character are as table 3-7 has them. */
  lemma HeadIsValid(c: char)
    ensures
      var b := EncodeChar(c);
      || (|b| == 1 && b[0] < 0x80)
      || (|b| == 2 && 0xC2 <= b[0] <= 0xDF && Continues(b[1]))
      || (|b| == 3 && ThreeBytes(b[0], b[1]) && Continues(b[2]))
      || (|b| == 4 && FourBytes(b[0], b[1]) && Continues(b[2]) && Continues(b[3]))
  {
  }

  /** And all valid bytes are the encoding of some text. */
  lemma {:induction false} ValidIsEncoded(b: Bytes) returns (s: string)
    requires ValidUtf8(b)
    ensures Encode(s) == b
    decreases |b|
  {
    s := "";
    if b != [] {
      var c, n := FirstChar(b);
      var rest := ValidIsEncoded(b[n..]);
      s := [c] + rest;
      assert s[1..] == rest;
      assert b == b[..n] + b[n..];
    }
  }

  lemma FirstChar(b: Bytes) returns (c: char, n: nat)
    requires ValidUtf8(b) && b != []
    ensures 1 <= n <= |b| && EncodeChar(c) == b[..n] && ValidUtf8(b[n..])
  {
    if b[0] < 0x80 {
      c, n := b[0] as char, 1;
    } else if b[0] <= 0xDF {
      c, n := TwoToChar(b[0], b[1]), 2;
    } else if b[0] <= 0xEF {
      c, n := ThreeToChar(b[0], b[1], b[2]), 3;
    } else {
      c, n := FourToChar(b[0], b[1], b[2], b[3]), 4;
    }
  }

  function TwoToChar(a: Byte, b: Byte): (c: char)
    requires 0xC2 <= a <= 0xDF && Continues(b)
    ensures EncodeChar(c) == [a, b]
  {
    ((a as int - 0xC0) * 64 + (b as int - 0x80)) as char
  }

  function ThreeToChar(a: Byte, b: Byte, d: Byte): (c: char)
    requires ThreeBytes(a, b) && Continues(d)
    ensures EncodeChar(c) == [a, b, d]
  {
    var x, y, z := a as int - 0xE0, b as int - 0x80, d as int - 0x80;
    var n := 64 * (64 * x + y) + z;
    SixBits(64 * x + y, z);
    SixBits(x, y);
    Nested(n);
    n as char
  }

  function FourToChar(a: Byte, b: Byte, d: Byte, e: Byte): (c: char)
    requires FourBytes(a, b) && Continues(d) && Continues(e)
    ensures EncodeChar(c) == [a, b, d, e]
  {
    var x, y, z, w := a as int - 0xF0, b as int - 0x80, d as int - 0x80, e as int - 0x80;
    var n := 64 * (64 * (64 * x + y) + z) + w;
    SixBits(64 * (64 * x + y) + z, w);
    SixBits(64 * x + y, z);
    SixBits(x, y);
    Nested(n);
    n as char
  }

  lemma SixBits(high: nat, low: nat)
    requires low < 64
    ensures (64 * high + low) / 64 == high && (64 * high + low) % 64 == low
  {
  }

  lemma Nested(n: nat)
    ensures n / 4_096 == n / 64 / 64 && n / 262_144 == n / 4_096 / 64
  {
  }

  /** Position `i` is the first where the two differ. */
  predicate DiffersAt(a: Bytes, b: Bytes, i: nat) {
    i < |a| && i < |b| && a[..i] == b[..i] && a[i] != b[i]
  }

  /** Byte order is decided at the first difference, and a proper prefix is
      less. */
  lemma {:induction false} LessAtFirstDifference(a: Bytes, b: Bytes)
    ensures Less(a, b) <==> (a < b || exists i: nat :: DiffersAt(a, b, i) && a[i] < b[i])
  {
    if a != [] && b != [] {
      var x, y := a[1..], b[1..];
      assert DiffersAt(a, b, 0) <==> a[0] != b[0];
      if a[0] == b[0] {
        LessAtFirstDifference(x, y);
        assert a == [a[0]] + x && b == [b[0]] + y;
        forall i: nat
          ensures DiffersAt(x, y, i) <==> DiffersAt(a, b, i + 1)
        {
          DiffersLater(a[0], x, y, i);
        }
        forall i: nat | DiffersAt(a, b, i)
          ensures i > 0 && DiffersAt(x, y, i - 1)
        {
          if i > 0 { DiffersLater(a[0], x, y, i - 1); }
        }
        hide DiffersAt;
      }
    }
  }

  lemma DiffersLater(head: Byte, a: Bytes, b: Bytes, i: nat)
    ensures DiffersAt(a, b, i) <==> DiffersAt([head] + a, [head] + b, i + 1)
  {
    var x, y := [head] + a, [head] + b;
    if i < |a| && i < |b| {
      assert x[..i + 1] == [head] + a[..i] && y[..i + 1] == [head] + b[..i];
      assert a[..i] == x[..i + 1][1..] && b[..i] == y[..i + 1][1..];
    }
  }

  predicate IsAscii(s: string) {
    forall i :: 0 <= i < |s| ==> s[i] as int < 0x80
  }

  /** Characters below 128 take one byte each. */
  function AsciiBytes(s: string): Bytes
    requires IsAscii(s)
  {
    seq(|s|, i requires 0 <= i < |s| => s[i] as int as Byte)
  }

  lemma {:induction false} EncodeAscii(s: string)
    requires IsAscii(s)
    ensures Encode(s) == AsciiBytes(s)
  {
    if s != [] {
      EncodeAscii(s[1..]);
      assert AsciiBytes(s) == [s[0] as int as Byte] + AsciiBytes(s[1..]);
    }
  }
}
