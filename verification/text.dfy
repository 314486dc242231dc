/** Text and byte helpers of the BL600 driver: the byte type of the serial link,
    the ASCII codec Python applies to commands and replies, Python's notion of
    whitespace and `str.strip`, decimal rendering, and tab-separated fields. */
module Text {
  import opened Outcomes

  type byte = x: int | 0 <= x < 256

  function Min(a: int, b: int): int { if a <= b then a else b }

  predicate StartsWith<T(==)>(s: seq<T>, prefix: seq<T>) {
    |prefix| <= |s| && s[..|prefix|] == prefix
  }

  predicate EndsWith<T(==)>(s: seq<T>, suffix: seq<T>) {
    |suffix| <= |s| && s[|s| - |suffix|..] == suffix
  }

  lemma AppendAssoc<T>(a: seq<T>, b: seq<T>, c: seq<T>)
    ensures a + (b + c) == (a + b) + c
  {
  }

  /** Python's `str.isspace` (also what `str.strip()` and the regex class `\s` use). */
  predicate IsSpace(c: char) {
    var n := c as int;
    (9 <= n <= 13) || (0x1c <= n <= 0x20) || n == 0x85 || n == 0xa0 || n == 0x1680 ||
    (0x2000 <= n <= 0x200a) || n == 0x2028 || n == 0x2029 || n == 0x202f ||
    n == 0x205f || n == 0x3000
  }

  predicate AllSpace(s: string) {
    forall k :: 0 <= k < |s| ==> IsSpace(s[k])
  }

  /** No whitespace at either end. */
  predicate Trimmed(s: string) {
    s == [] || (!IsSpace(s[0]) && !IsSpace(s[|s| - 1]))
  }

  /** Python's `str.strip()` with no argument: whitespace is taken off both
      ends until none is left there. */
  function Strip(s: string): (r: string)
    ensures |r| <= |s|
    decreases |s|
  {
    if s != [] && IsSpace(s[0]) then Strip(s[1..])
    else if s != [] && IsSpace(s[|s| - 1]) then Strip(s[..|s| - 1])
    else s
  }

  lemma {:induction false} StripTrimmed(s: string)
    ensures Trimmed(Strip(s))
    decreases |s|
  {
    if s != [] && IsSpace(s[0]) {
      StripTrimmed(s[1..]);
    } else if s != [] && IsSpace(s[|s| - 1]) {
      StripTrimmed(s[..|s| - 1]);
    }
  }

  /** A string of whitespace strips to nothing. */
  lemma {:induction false} StripAllSpace(s: string)
    requires AllSpace(s)
    ensures Strip(s) == []
    decreases |s|
  {
    if s != [] {
      assert IsSpace(s[0]);
      StripAllSpace(s[1..]);
    }
  }

  /** Stripping removes exactly the surrounding whitespace and nothing else. */
  lemma {:induction false} StripPadded(pre: string, p: string, post: string)
    requires AllSpace(pre) && AllSpace(post) && Trimmed(p)
    ensures Strip(pre + p + post) == p
    decreases |pre| + |post|
  {
    var s := pre + p + post;
    if p == [] {
      assert AllSpace(s) by {
        forall k | 0 <= k < |s| ensures IsSpace(s[k]) {
          if k < |pre| { assert s[k] == pre[k]; } else { assert s[k] == post[k - |pre|]; }
        }
      }
      StripAllSpace(s);
    } else if pre != [] {
      assert s[0] == pre[0];
      assert s[1..] == pre[1..] + p + post;
      StripPadded(pre[1..], p, post);
    } else if post != [] {
      assert s == p + post;
      assert s[0] == p[0] && s[|s| - 1] == post[|post| - 1];
      assert s[..|s| - 1] == [] + p + post[..|post| - 1];
      StripPadded([], p, post[..|post| - 1]);
    } else {
      assert s == p;
    }
  }

  lemma StripIdempotent(s: string)
    ensures Strip(Strip(s)) == Strip(s)
  {
    StripTrimmed(s);
    StripPadded([], Strip(s), []);
    assert [] + Strip(s) + [] == Strip(s);
  }

  predicate IsAscii(s: string) {
    forall i :: 0 <= i < |s| ==> s[i] as int < 128
  }

  predicate AsciiBytes(b: seq<byte>) {
    forall i :: 0 <= i < |b| ==> b[i] < 128
  }

  /** `bytearray(s, "ascii")`, defined where Python does not raise. */
  function EncodeAscii(s: string): (b: seq<byte>)
    requires IsAscii(s)
    ensures |b| == |s| && AsciiBytes(b)
  {
    seq(|s|, i requires 0 <= i < |s| => s[i] as int as byte)
  }

  /** `str(b, "ascii")`: None where Python raises UnicodeDecodeError. */
  function DecodeAscii(b: seq<byte>): (r: Option<string>)
    ensures r.Some? ==> |r.value| == |b|
  {
    if b == [] then Some([])
    else if b[0] >= 128 then None
    else match DecodeAscii(b[1..])
         case None => None
         case Some(t) => Some([b[0] as char] + t)
  }

  /** Decoding fails exactly on a byte above 127, and otherwise maps each byte to
      the character with that code. */
  lemma {:induction false} DecodeAsciiChars(b: seq<byte>)
    ensures DecodeAscii(b).Some? <==> AsciiBytes(b)
    ensures DecodeAscii(b).Some? ==> forall i :: 0 <= i < |b| ==> DecodeAscii(b).value[i] as int == b[i]
  {
    if b != [] {
      DecodeAsciiChars(b[1..]);
      if b[0] < 128 && AsciiBytes(b[1..]) {
        var t := DecodeAscii(b[1..]).value;
        assert DecodeAscii(b).value == [b[0] as char] + t;
        assert forall i :: 1 <= i < |b| ==> b[i] == b[1..][i - 1];
      } else if b[0] < 128 {
        var k :| 0 <= k < |b[1..]| && b[1..][k] >= 128;
        assert b[k + 1] >= 128;
      }
    }
  }

  lemma DecodeEncode(s: string)
    requires IsAscii(s)
    ensures DecodeAscii(EncodeAscii(s)) == Some(s)
  {
    var b := EncodeAscii(s);
    DecodeAsciiChars(b);
    assert DecodeAscii(b).value == s;
  }

  lemma EncodeDecode(b: seq<byte>)
    requires AsciiBytes(b)
    ensures DecodeAscii(b).Some? && IsAscii(DecodeAscii(b).value) && EncodeAscii(DecodeAscii(b).value) == b
  {
    DecodeAsciiChars(b);
  }

  lemma EncodeAppend(s: string, t: string)
    requires IsAscii(s) && IsAscii(t)
    ensures IsAscii(s + t) && EncodeAscii(s + t) == EncodeAscii(s) + EncodeAscii(t)
  {
    assert IsAscii(s + t) by {
      forall i | 0 <= i < |s + t| ensures (s + t)[i] as int < 128 {
        if i < |s| { assert (s + t)[i] == s[i]; } else { assert (s + t)[i] == t[i - |s|]; }
      }
    }
  }

  function Digit(d: nat): (c: char)
    requires d < 10
  {
    ('0' as int + d) as char
  }

  predicate AllDigits(s: string) {
    forall i :: 0 <= i < |s| ==> '0' <= s[i] <= '9'
  }

  /** The number a string of decimal digits denotes. */
  function DecimalValue(s: string): nat
    requires AllDigits(s)
  {
    if s == [] then 0 else 10 * DecimalValue(s[..|s| - 1]) + (s[|s| - 1] as int - '0' as int)
  }

  /** Python's `"%d" % n` for a non-negative n: digits that denote n, with no
      leading zero unless n is 0 itself. */
  function Decimal(n: nat): (s: string)
    ensures |s| >= 1 && AllDigits(s)
    ensures DecimalValue(s) == n
    ensures s[0] != '0' || s == "0"
  {
    if n < 10 then [Digit(n)]
    else
      var s := Decimal(n / 10) + [Digit(n % 10)];
      assert s[..|s| - 1] == Decimal(n / 10);
      s
  }

  /** Index of the last occurrence of `c` in `s`, or -1 (Python's `str.rfind`). */
  function RFind<T(==)>(s: seq<T>, c: T): (r: int)
    ensures -1 <= r < |s|
    ensures r >= 0 ==> s[r] == c
    ensures forall k :: r < k < |s| ==> s[k] != c
  {
    if s == [] then -1
    else if s[|s| - 1] == c then |s| - 1
    else RFind(s[..|s| - 1], c)
  }

  /** Joins fields with a separator (Python's `sep.join(fields)`). */
  function Join(fields: seq<string>, sep: char): string
    requires |fields| >= 1
  {
    if |fields| == 1 then fields[0]
    else Join(fields[..|fields| - 1], sep) + [sep] + fields[|fields| - 1]
  }

  /** Python's `s.split(sep)` for a one-character separator. */
  function Split(s: string, sep: char): (fields: seq<string>)
    ensures |fields| >= 1
    ensures forall i :: 0 <= i < |fields| ==> sep !in fields[i]
    ensures Join(fields, sep) == s
    decreases |s|
  {
    var j := RFind(s, sep);
    if j < 0 then [s]
    else
      var init := Split(s[..j], sep);
      var fields := init + [s[j + 1..]];
      assert fields[..|fields| - 1] == init;
      assert s == s[..j] + [sep] + s[j + 1..];
      fields
  }

  /** Splitting joined separator-free fields gives the fields back. */
  lemma {:induction false} SplitJoin(fields: seq<string>, sep: char)
    requires |fields| >= 1
    requires forall i :: 0 <= i < |fields| ==> sep !in fields[i]
    ensures Split(Join(fields, sep), sep) == fields
    decreases |fields|
  {
    if |fields| > 1 {
      var init := fields[..|fields| - 1];
      var last := fields[|fields| - 1];
      var s := Join(fields, sep);
      assert s == Join(init, sep) + [sep] + last;
      var j := |Join(init, sep)|;
      assert s[j] == sep;
      assert forall k :: j < k < |s| ==> s[k] == last[k - j - 1];
      assert RFind(s, sep) == j;
      assert s[..j] == Join(init, sep);
      assert s[j + 1..] == last;
      SplitJoin(init, sep);
      assert fields == init + [last];
    } else {
      assert RFind(fields[0], sep) < 0;
    }
  }

  /** `s.split(sep)[-1]`: the text after the last separator. */
  function LastField(s: string, sep: char): (r: string)
    ensures sep !in r && EndsWith(s, r)
    ensures |r| < |s| ==> s[|s| - |r| - 1] == sep
    ensures |r| == |s| ==> r == s
  {
    var fields := Split(s, sep);
    var j := RFind(s, sep);
    assert j >= 0 ==> fields[|fields| - 1] == s[j + 1..];
    assert j < 0 ==> fields == [s];
    fields[|fields| - 1]
  }
}
