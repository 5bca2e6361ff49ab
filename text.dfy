/** The text formatting the lowering pass relies on: decimal rendering of
    counters and sizes (Python's `f"{n}"`), the `\x%02X` escape of one byte,
    and `', '.join(...)`.  Each rendering comes with its parser, and the
    round trips between the two are proved. */
module Text {

  datatype Option<T> = None | Some(value: T)

  /** A byte of a weight buffer. */
  newtype byte = x: int | 0 <= x < 256

  // ---------------------------------------------------------------------
  // Decimal rendering of natural numbers
  // ---------------------------------------------------------------------

  predicate IsDecimalDigit(c: char) { '0' <= c <= '9' }

  function DecimalDigit(d: nat): (c: char)
    requires d < 10
    ensures IsDecimalDigit(c)
  {
    ('0' as int + d) as char
  }

  function DecimalValue(c: char): (d: nat)
    requires IsDecimalDigit(c)
    ensures d < 10 && DecimalDigit(d) == c
  {
    c as int - '0' as int
  }

  /** Decimal text of `n`, most significant digit first, no leading zero. */
  function NatToString(n: nat): (s: string)
    ensures |s| >= 1
    ensures forall i :: 0 <= i < |s| ==> IsDecimalDigit(s[i])
    ensures (s[0] == '0') == (n == 0)
    decreases n
  {
    if n < 10 then [DecimalDigit(n)] else NatToString(n / 10) + [DecimalDigit(n % 10)]
  }

  /** Reads a non-empty string of decimal digits back as a number. */
  function ParseNat(s: string): nat
    requires |s| >= 1
    requires forall i :: 0 <= i < |s| ==> IsDecimalDigit(s[i])
    decreases |s|
  {
    if |s| == 1 then DecimalValue(s[0])
    else 10 * ParseNat(s[..|s| - 1]) + DecimalValue(s[|s| - 1])
  }

  lemma {:induction false} ParseNatToString(n: nat)
    ensures ParseNat(NatToString(n)) == n
    decreases n
  {
    if n >= 10 {
      var s := NatToString(n);
      var prefix := NatToString(n / 10);
      assert s == prefix + [DecimalDigit(n % 10)];
      assert s[..|s| - 1] == prefix;
      ParseNatToString(n / 10);
    }
  }

  /** Distinct numbers have distinct decimal texts. */
  lemma NatToStringInjective(m: nat, n: nat)
    ensures NatToString(m) == NatToString(n) ==> m == n
  {
    ParseNatToString(m);
    ParseNatToString(n);
  }

  // ---------------------------------------------------------------------
  // The `\x%02X` escape of one byte, and its inverse
  // ---------------------------------------------------------------------

  /** An upper-case hexadecimal digit, as `%X` prints them. */
  predicate IsHexDigit(c: char) { '0' <= c <= '9' || 'A' <= c <= 'F' }

  function HexDigit(d: nat): (c: char)
    requires d < 16
    ensures IsHexDigit(c)
  {
    if d < 10 then ('0' as int + d) as char else ('A' as int + (d - 10)) as char
  }

  function HexValue(c: char): (d: nat)
    requires IsHexDigit(c)
    ensures d < 16 && HexDigit(d) == c
  {
    if c <= '9' then c as int - '0' as int else c as int - 'A' as int + 10
  }

  lemma HexValueOfDigit(d: nat)
    requires d < 16
    ensures HexValue(HexDigit(d)) == d
  {
  }

  /** `"\\x%02X" % b`: a backslash, an `x`, and two upper-case hex digits
      whose value is `b`. */
  function EscapeByte(b: byte): (s: string)
    ensures |s| == 4 && s[0] == '\\' && s[1] == 'x'
    ensures IsHexDigit(s[2]) && IsHexDigit(s[3])
    ensures 16 * HexValue(s[2]) + HexValue(s[3]) == b as int
  {
    HexValueOfDigit(b as int / 16);
    HexValueOfDigit(b as int % 16);
    ['\\', 'x', HexDigit(b as int / 16), HexDigit(b as int % 16)]
  }

  /** `''.join(["\\x%02X" % x for x in bs])`: byte `k` occupies exactly
      the characters `4k .. 4k+4`. */
  function Escape(bs: seq<byte>): (s: string)
    ensures |s| == 4 * |bs|
    ensures forall k :: 0 <= k < |bs| ==> s[4 * k .. 4 * k + 4] == EscapeByte(bs[k])
  {
    if bs == [] then ""
    else
      var head, tail := EscapeByte(bs[0]), Escape(bs[1..]);
      assert forall k :: 1 <= k < |bs| ==>
        (head + tail)[4 * k .. 4 * k + 4] == tail[4 * (k - 1) .. 4 * (k - 1) + 4];
      head + tail
  }

  /** Reads a C string literal body made only of `\xHH` escapes back into
      bytes; anything else is rejected. */
  function Unescape(s: string): (r: Option<seq<byte>>)
    ensures r.Some? ==> 4 * |r.value| == |s|
    decreases |s|
  {
    if s == [] then Some([])
    else if |s| < 4 || s[0] != '\\' || s[1] != 'x' || !IsHexDigit(s[2]) || !IsHexDigit(s[3]) then None
    else
      match Unescape(s[4..])
      case None => None
      case Some(rest) => Some([(16 * HexValue(s[2]) + HexValue(s[3])) as byte] + rest)
  }

  /** Decoding the escaped literal gives back the bytes, bit for bit. */
  lemma {:induction false} UnescapeEscape(bs: seq<byte>)
    ensures Unescape(Escape(bs)) == Some(bs)
  {
    if bs != [] {
      var s := Escape(bs);
      var e := EscapeByte(bs[0]);
      assert s == e + Escape(bs[1..]);
      assert s[..4] == e && s[4..] == Escape(bs[1..]);
      assert s[0] == '\\' && s[1] == 'x' && s[2] == e[2] && s[3] == e[3];
      UnescapeEscape(bs[1..]);
      assert (16 * HexValue(s[2]) + HexValue(s[3])) as byte == bs[0];
      assert [bs[0]] + bs[1..] == bs;
    }
  }

  /** The escape is canonical: every literal the decoder accepts is exactly
      the escape of what it decodes to. */
  lemma {:induction false} EscapeUnescape(s: string)
    requires Unescape(s).Some?
    ensures Escape(Unescape(s).value) == s
    decreases |s|
  {
    if s != [] {
      EscapeUnescape(s[4..]);
      var hi, lo := HexValue(s[2]), HexValue(s[3]);
      var b := (16 * hi + lo) as byte;
      var rest := Unescape(s[4..]).value;
      assert Unescape(s).value == [b] + rest;
      assert b as int / 16 == hi && b as int % 16 == lo;
      var e := EscapeByte(b);
      assert e == s[..4];
      assert ([b] + rest)[0] == b && ([b] + rest)[1..] == rest;
      assert Escape([b] + rest) == e + Escape(rest);
      assert s == s[..4] + s[4..];
    }
  }

  // ---------------------------------------------------------------------
  // `sep.join(parts)`
  // ---------------------------------------------------------------------

  function Join(parts: seq<string>, sep: string): string
  {
    if |parts| == 0 then ""
    else if |parts| == 1 then parts[0]
    else parts[0] + sep + Join(parts[1..], sep)
  }

  /** A slice of the second half of a concatenation. */
  lemma SliceAfter(a: string, b: string, lo: nat, hi: nat)
    requires lo <= hi <= |b|
    ensures (a + b)[|a| + lo .. |a| + hi] == b[lo..hi]
  {
  }

  /** The number of characters in all of `parts` together. */
  function TotalLength(parts: seq<string>): nat
    decreases |parts|
  {
    if parts == [] then 0 else |parts[0]| + TotalLength(parts[1..])
  }

  /** A join holds every part and one separator between each two
      neighbours, and nothing more. */
  lemma {:induction false} JoinLength(parts: seq<string>, sep: string)
    requires |parts| > 0
    ensures |Join(parts, sep)| == TotalLength(parts) + (|parts| - 1) * |sep|
    decreases |parts|
  {
    if |parts| == 1 {
      assert parts[1..] == [];
    } else {
      JoinLength(parts[1..], sep);
    }
  }

  /** Part `j` starts after the `j` earlier parts and their `j`
      separators, and a separator follows it unless it is the last. */
  lemma {:induction false} JoinAt(parts: seq<string>, sep: string, j: nat)
    requires j < |parts|
    ensures var o := TotalLength(parts[..j]) + j * |sep|;
      var s := Join(parts, sep);
      && o + |parts[j]| <= |s|
      && s[o .. o + |parts[j]|] == parts[j]
      && (j + 1 < |parts| ==>
            o + |parts[j]| + |sep| <= |s| && s[o + |parts[j]| .. o + |parts[j]| + |sep|] == sep)
    decreases j
  {
    var s := Join(parts, sep);
    if j == 0 {
      assert parts[..0] == [];
      if |parts| > 1 {
        assert s == parts[0] + (sep + Join(parts[1..], sep));
        SliceAfter(parts[0], sep + Join(parts[1..], sep), 0, |sep|);
      }
    } else {
      var rest := parts[1..];
      JoinAt(rest, sep, j - 1);
      assert parts[..j][1..] == rest[..j - 1];
      var r := Join(rest, sep);
      var p := parts[0] + sep;
      assert s == p + r;
      var o' := TotalLength(rest[..j - 1]) + (j - 1) * |sep|;
      assert j * |sep| == (j - 1) * |sep| + |sep|;
      assert TotalLength(parts[..j]) == |parts[0]| + TotalLength(rest[..j - 1]);
      assert rest[j - 1] == parts[j];
      SliceAfter(p, r, o', o' + |parts[j]|);
      if j + 1 < |parts| {
        SliceAfter(p, r, o' + |parts[j]|, o' + |parts[j]| + |sep|);
      }
    }
  }
}
