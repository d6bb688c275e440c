/**
 * The JavaScript and Node.js built-ins that the response handler and the
 * client rely on, stated as functions over bytes and strings:
 * Buffer.prototype.indexOf, Buffer.prototype.slice, String.prototype.split,
 * Array.prototype.join, parseInt(s, 10), the decimal rendering of a
 * non-negative number, new Buffer(string) (UTF-8 encoding) and
 * Buffer.prototype.toString for a header (one byte per character).
 */
module JsBuiltins {

  datatype Option<T> = None | Some(value: T)

  newtype byte = b: int | 0 <= b < 0x100

  type Bytes = seq<byte>

  const CR: byte := 0x0D
  const LF: byte := 0x0A
  const CRLF: Bytes := [CR, LF]

  /** The two-byte line terminator starts at position i of buf. */
  predicate CrlfAt(buf: Bytes, i: int) {
    0 <= i && i + 1 < |buf| && buf[i] == CR && buf[i + 1] == LF
  }

  /** buf.indexOf(CRLF): the first position of the terminator; None stands for -1. */
  function IndexOfCrlf(buf: Bytes): (r: Option<nat>)
    ensures r.Some? ==> CrlfAt(buf, r.value)
    ensures forall i :: 0 <= i < (if r.Some? then r.value else |buf|) ==> !CrlfAt(buf, i)
  {
    IndexOfCrlfFrom(buf, 0)
  }

  function IndexOfCrlfFrom(buf: Bytes, from: nat): (r: Option<nat>)
    requires from <= |buf|
    ensures r.Some? ==> from <= r.value && CrlfAt(buf, r.value)
    ensures forall i :: from <= i < (if r.Some? then r.value else |buf|) ==> !CrlfAt(buf, i)
    decreases |buf| - from
  {
    if from + 1 >= |buf| then None
    else if buf[from] == CR && buf[from + 1] == LF then Some(from)
    else IndexOfCrlfFrom(buf, from + 1)
  }

  /** Appending bytes never moves a terminator that is already present. */
  lemma IndexOfCrlfAppend(buf: Bytes, more: Bytes)
    requires IndexOfCrlf(buf).Some?
    ensures IndexOfCrlf(buf + more) == IndexOfCrlf(buf)
  {
    var i := IndexOfCrlf(buf).value;
    assert CrlfAt(buf + more, i);
    forall j | 0 <= j < i
      ensures !CrlfAt(buf + more, j)
    {
      assert !CrlfAt(buf, j);
    }
  }

  /** The terminator is found right after a prefix that holds no CR byte. */
  lemma IndexOfCrlfAfter(line: Bytes, tail: Bytes)
    requires forall k :: 0 <= k < |line| ==> line[k] != CR
    ensures IndexOfCrlf(line + CRLF + tail) == Some(|line|)
  {
    var buf := line + CRLF + tail;
    assert CrlfAt(buf, |line|);
    forall j | 0 <= j < |line|
      ensures !CrlfAt(buf, j)
    {
      assert buf[j] == line[j];
    }
  }

  /** An index argument of Buffer.prototype.slice: a negative one counts from the end; both are clamped to [0, len]. */
  function RelativeIndex(i: int, len: nat): (r: nat)
    ensures r <= len
    ensures 0 <= i <= len ==> r == i
    ensures i < 0 ==> r == if len + i < 0 then 0 else len + i
  {
    if i < 0 then (if len + i < 0 then 0 else len + i)
    else if i > len then len
    else i
  }

  /** buf.slice(start, end); an end at or before the start gives the empty buffer. */
  function Slice(s: Bytes, start: int, end: int): (r: Bytes)
    ensures 0 <= start <= end <= |s| ==> r == s[start..end]
    ensures |r| <= |s|
  {
    var a, b := RelativeIndex(start, |s|), RelativeIndex(end, |s|);
    if a < b then s[a..b] else []
  }

  /**
   * buf.toString for the header line. Each byte becomes the character with
   * the same code, which agrees with UTF-8 decoding on ASCII text.
   */
  function DecodeHeader(bs: Bytes): (s: string)
    ensures |s| == |bs|
    ensures forall i :: 0 <= i < |bs| ==> s[i] as int == bs[i] as int
  {
    seq(|bs|, i requires 0 <= i < |bs| => bs[i] as int as char)
  }

  predicate IsAscii(s: string) {
    forall i :: 0 <= i < |s| ==> s[i] as int < 0x80
  }

  /** The UTF-8 encoding of one character. */
  function Utf8Char(c: char): (r: Bytes)
    ensures 1 <= |r| <= 4
    ensures c as int < 0x80 ==> r == [c as int as byte]
    ensures c as int >= 0x80 ==> forall k :: 0 <= k < |r| ==> r[k] >= 0x80
  {
    var n := c as int;
    if n < 0x80 then [n as byte]
    else if n < 0x800 then [(0xC0 + n / 0x40) as byte, (0x80 + n % 0x40) as byte]
    else if n < 0x10000 then
      [(0xE0 + n / 0x1000) as byte, (0x80 + (n / 0x40) % 0x40) as byte, (0x80 + n % 0x40) as byte]
    else
      [(0xF0 + n / 0x40000) as byte, (0x80 + (n / 0x1000) % 0x40) as byte,
       (0x80 + (n / 0x40) % 0x40) as byte, (0x80 + n % 0x40) as byte]
  }

  /** new Buffer(s): the UTF-8 encoding of a string. */
  function Utf8(s: string): (r: Bytes)
    ensures |r| >= |s|
    ensures IsAscii(s) ==> |r| == |s| && forall i :: 0 <= i < |s| ==> r[i] as int == s[i] as int
  {
    if s == [] then [] else Utf8Char(s[0]) + Utf8(s[1..])
  }

  lemma {:induction false} Utf8Append(a: string, b: string)
    ensures Utf8(a + b) == Utf8(a) + Utf8(b)
  {
    if a == [] {
      assert a + b == b;
    } else {
      assert (a + b)[0] == a[0];
      assert (a + b)[1..] == a[1..] + b;
      Utf8Append(a[1..], b);
    }
  }

  /** A CR byte in an encoding can only come from a CR character. */
  lemma {:induction false} Utf8NoCr(s: string)
    requires '\r' !in s
    ensures forall k :: 0 <= k < |Utf8(s)| ==> Utf8(s)[k] != CR
  {
    if s != [] {
      assert s[0] != '\r';
      Utf8NoCr(s[1..]);
      var head, tail := Utf8Char(s[0]), Utf8(s[1..]);
      forall k | 0 <= k < |head| + |tail|
        ensures (head + tail)[k] != CR
      {
        if k >= |head| {
          assert (head + tail)[k] == tail[k - |head|];
        }
      }
    }
  }

  /** Decoding the encoding of an ASCII string gives the string back. */
  lemma DecodeUtf8Ascii(s: string)
    requires IsAscii(s)
    ensures DecodeHeader(Utf8(s)) == s
  {
  }

  /** "a b".split(" "): always at least one part, and no part holds the separator. */
  function Split(s: string, sep: char): (parts: seq<string>)
    ensures |parts| >= 1
    ensures forall k :: 0 <= k < |parts| ==> sep !in parts[k]
    decreases |s|
  {
    if s == [] then [[]]
    else
      var rest := Split(s[1..], sep);
      if s[0] == sep then [[]] + rest
      else [[s[0]] + rest[0]] + rest[1..]
  }

  /** parts.join(sep). */
  function Join(parts: seq<string>, sep: char): (s: string)
    requires |parts| >= 1
    decreases |parts|
  {
    if |parts| == 1 then parts[0] else parts[0] + [sep] + Join(parts[1..], sep)
  }

  lemma {:induction false} JoinSplit(s: string, sep: char)
    ensures Join(Split(s, sep), sep) == s
    decreases |s|
  {
    if s != [] {
      var rest := Split(s[1..], sep);
      JoinSplit(s[1..], sep);
      if s[0] == sep {
        assert Split(s, sep)[1..] == rest;
      } else {
        var parts := Split(s, sep);
        assert parts[1..] == rest[1..];
        if |rest| == 1 {
          assert Join(parts, sep) == [s[0]] + rest[0];
        } else {
          assert Join(parts, sep) == [s[0]] + rest[0] + [sep] + Join(rest[1..], sep);
        }
      }
    }
  }

  lemma {:induction false} SplitJoin(parts: seq<string>, sep: char)
    requires |parts| >= 1
    requires forall k :: 0 <= k < |parts| ==> sep !in parts[k]
    ensures Split(Join(parts, sep), sep) == parts
    decreases |parts|, |parts[0]|
  {
    if |parts[0]| > 0 {
      var first := parts[0];
      var shorter := [first[1..]] + parts[1..];
      assert forall k :: 0 <= k < |shorter| ==> sep !in shorter[k] by {
        forall k | 0 <= k < |shorter| ensures sep !in shorter[k] {
          if k == 0 {
            assert forall c :: c in first[1..] ==> c in first;
          } else {
            assert shorter[k] == parts[k];
          }
        }
      }
      SplitJoin(shorter, sep);
      var s := Join(parts, sep);
      if |parts| == 1 {
        assert s == [first[0]] + Join(shorter, sep);
      } else {
        assert Join(shorter, sep) == first[1..] + [sep] + Join(parts[1..], sep);
        assert s == [first[0]] + Join(shorter, sep);
      }
      assert s[1..] == Join(shorter, sep);
      assert s[0] == first[0];
      assert first[0] != sep by { assert first[0] in parts[0]; }
      assert [s[0]] + shorter[0] == first;
      assert shorter[1..] == parts[1..];
      assert Split(s, sep) == [[s[0]] + shorter[0]] + shorter[1..];
    } else if |parts| > 1 {
      SplitJoin(parts[1..], sep);
      var s := Join(parts, sep);
      assert s == [sep] + Join(parts[1..], sep);
      assert s[1..] == Join(parts[1..], sep);
      assert [[]] + parts[1..] == parts;
    }
  }

  predicate IsDigit(c: char) {
    0x30 <= c as int <= 0x39
  }

  /** The characters parseInt skips before the number (WhiteSpace and LineTerminator). */
  predicate IsJsSpace(c: char) {
    var n := c as int;
    (0x09 <= n <= 0x0D) || n == 0x20 || n == 0xA0 || n == 0x1680 || (0x2000 <= n <= 0x200A)
    || n == 0x2028 || n == 0x2029 || n == 0x202F || n == 0x205F || n == 0x3000 || n == 0xFEFF
  }

  /*
   * The pieces of parseInt carry no postconditions of their own: what they
   * compute is stated by the lemmas after them, so that a proof mentioning a
   * parsed length does not drag their properties along.
   */

  /** s without its leading white space. */
  function TrimStart(s: string): string {
    if s != [] && IsJsSpace(s[0]) then TrimStart(s[1..]) else s
  }

  /** The longest prefix of decimal digits. */
  function DigitPrefix(s: string): string {
    if s != [] && IsDigit(s[0]) then [s[0]] + DigitPrefix(s[1..]) else []
  }

  /** The value of a digit string, most significant digit first. */
  function DigitsValue(d: string): int {
    if d == [] then 0
    else DigitsValue(d[..|d| - 1]) * 10 + (d[|d| - 1] as int - 0x30)
  }

  /** parseInt(s, 10); None stands for NaN. */
  function ParseInt(s: string): (r: Option<int>)
    ensures r.Some? ==> exists k :: 0 <= k < |s| && IsDigit(s[k])
  {
    var t := TrimStart(s);
    var negative := t != [] && t[0] == '-';
    var unsigned := if t != [] && (t[0] == '-' || t[0] == '+') then t[1..] else t;
    var d := DigitPrefix(unsigned);
    if d == [] then None
    else
      TrimStartSuffix(s);
      DigitPrefixDigits(unsigned);
      assert d[0] == s[|s| - |unsigned|];
      var v := DigitsValue(d);
      Some(if negative then -v else v)
  }

  lemma {:induction false} TrimStartSuffix(s: string)
    ensures var t := TrimStart(s); |t| <= |s| && t == s[|s| - |t|..]
    ensures var t := TrimStart(s); t != [] ==> !IsJsSpace(t[0])
  {
    if s != [] && IsJsSpace(s[0]) {
      TrimStartSuffix(s[1..]);
    }
  }

  lemma {:induction false} DigitPrefixDigits(s: string)
    ensures var d := DigitPrefix(s); |d| <= |s| && d == s[..|d|]
    ensures var d := DigitPrefix(s); forall k :: 0 <= k < |d| ==> IsDigit(d[k])
    ensures var d := DigitPrefix(s); |d| < |s| ==> !IsDigit(s[|d|])
  {
    if s != [] && IsDigit(s[0]) {
      DigitPrefixDigits(s[1..]);
    }
  }

  /** A digit string has a non-negative value. */
  lemma {:induction false} DigitsValueNatural(d: string)
    requires forall k :: 0 <= k < |d| ==> IsDigit(d[k])
    ensures DigitsValue(d) >= 0
  {
    if d != [] {
      DigitsValueNatural(d[..|d| - 1]);
    }
  }

  function DigitChar(n: nat): (c: char)
    requires n < 10
    ensures IsDigit(c)
  {
    (0x30 + n) as char
  }

  /** String(n) for a non-negative integer (below 1e21, where JavaScript switches to exponent form). */
  function Decimal(n: nat): (s: string)
    ensures |s| >= 1
    ensures forall k :: 0 <= k < |s| ==> IsDigit(s[k])
  {
    if n < 10 then [DigitChar(n)] else Decimal(n / 10) + [DigitChar(n % 10)]
  }

  lemma {:induction false} DigitsValueDecimal(n: nat)
    ensures DigitsValue(Decimal(n)) == n
  {
    if n >= 10 {
      DigitsValueDecimal(n / 10);
      var s := Decimal(n);
      assert s[..|s| - 1] == Decimal(n / 10);
    }
  }

  lemma {:induction false} DigitPrefixOfDigits(s: string)
    requires forall k :: 0 <= k < |s| ==> IsDigit(s[k])
    ensures DigitPrefix(s) == s
  {
    if s != [] {
      DigitPrefixOfDigits(s[1..]);
    }
  }

  /** parseInt reads back the decimal rendering of every non-negative integer. */
  lemma ParseIntDecimal(n: nat)
    ensures ParseInt(Decimal(n)) == Some(n)
  {
    var s := Decimal(n);
    assert IsDigit(s[0]);
    assert TrimStart(s) == s;
    TrimStartSuffix(s);
    assert s[0] != '-' && s[0] != '+';
    DigitPrefixOfDigits(s);
    DigitsValueDecimal(n);
  }

  /** A word that starts with a letter or an underscore never parses as a number. */
  lemma ParseIntWordStart(s: string)
    requires s != [] && ('A' <= s[0] <= 'Z' || 'a' <= s[0] <= 'z' || s[0] == '_')
    ensures ParseInt(s).None?
  {
    assert TrimStart(s) == s;
  }
}
