/** The log text built by `on_output_report_written`: every report byte is
    printed with `"%02x"` (two lower-case hex digits) and followed by a space,
    so N bytes become a string of 3N characters. */
module HexDump {
  import opened Types

  const HEX_DIGITS: string := "0123456789abcdef"

  /** The lower-case hex digit for a nibble, as `%x` prints it. */
  function HexDigit(nibble: int): (c: char)
    requires 0 <= nibble < 16
  {
    HEX_DIGITS[nibble]
  }

  /** The nibble a lower-case hex digit stands for; -1 for any other character. */
  function DigitValue(c: char): (v: int)
    ensures -1 <= v < 16
    ensures v >= 0 ==> HexDigit(v) == c
  {
    if '0' <= c <= '9' then c as int - '0' as int
    else if 'a' <= c <= 'f' then c as int - 'a' as int + 10
    else -1
  }

  lemma DigitValueOfHexDigit(nibble: int)
    requires 0 <= nibble < 16
    ensures DigitValue(HexDigit(nibble)) == nibble
  {
  }

  /** The character a dump of `data` holds at position `k`: the high digit,
      the low digit or the separating space of byte `k / 3`. */
  function DumpChar(data: seq<byte>, k: int): char
    requires 0 <= k < 3 * |data|
  {
    var b := data[k / 3];
    if k % 3 == 0 then HexDigit(b / 16)
    else if k % 3 == 1 then HexDigit(b % 16)
    else ' '
  }

  /** `text` is the dump of `data`: three characters per byte, laid out as
      `DumpChar` says. */
  ghost predicate IsDumpOf(text: string, data: seq<byte>)
  {
    && |text| == 3 * |data|
    && forall k :: 0 <= k < |text| ==> text[k] == DumpChar(data, k)
  }

  /** Reference definition of the dump, one byte at a time. */
  function Dump(data: seq<byte>): (text: string)
    ensures IsDumpOf(text, data)
  {
    if data == [] then ""
    else
      var rest := Dump(data[1..]);
      var text := [HexDigit(data[0] / 16), HexDigit(data[0] % 16), ' '] + rest;
      assert forall k :: 3 <= k < |text| ==> text[k] == rest[k - 3];
      assert forall k :: 3 <= k < |text| ==> DumpChar(data, k) == DumpChar(data[1..], k - 3) by {
        forall k | 3 <= k < |text|
          ensures DumpChar(data, k) == DumpChar(data[1..], k - 3)
        {
          assert (k - 3) / 3 == k / 3 - 1 && (k - 3) % 3 == k % 3;
        }
      }
      text
  }

  /** Reads a dump back into bytes, one digit pair per three characters. */
  function Parse(text: string): (data: seq<int>)
  {
    seq(|text| / 3, i requires 0 <= i < |text| / 3 =>
      16 * DigitValue(text[3 * i]) + DigitValue(text[3 * i + 1]))
  }

  /** Every dump reads back as the bytes it was made from. */
  lemma ParseDump(text: string, data: seq<byte>)
    requires IsDumpOf(text, data)
    ensures Parse(text) == data
  {
    var p := Parse(text);
    assert |p| == |data|;
    forall i | 0 <= i < |data|
      ensures p[i] == data[i]
    {
      assert text[3 * i] == DumpChar(data, 3 * i);
      assert text[3 * i + 1] == DumpChar(data, 3 * i + 1);
      assert (3 * i) / 3 == i && (3 * i) % 3 == 0;
      assert (3 * i + 1) / 3 == i && (3 * i + 1) % 3 == 1;
      DigitValueOfHexDigit(data[i] / 16);
      DigitValueOfHexDigit(data[i] % 16);
    }
  }

  /** A dump is determined by its bytes, and the bytes by the dump. */
  lemma DumpInjective(a: seq<byte>, b: seq<byte>)
    ensures Dump(a) == Dump(b) <==> a == b
  {
    if Dump(a) == Dump(b) {
      ParseDump(Dump(a), a);
      ParseDump(Dump(b), b);
    }
  }

  /** The formatter with the terminator write kept in bounds: the buffer holds
      3N characters of dump plus the NUL at index 3N. Returns the dump text,
      the characters before the terminator. */
  method FormatReport(data: seq<byte>) returns (text: string)
    ensures IsDumpOf(text, data)
    ensures text == Dump(data)
  {
    var buf := new char[3 * |data| + 1];
    var i := 0;
    while i < |data|
      invariant 0 <= i <= |data|
      invariant forall k :: 0 <= k < 3 * i ==> buf[k] == DumpChar(data, k)
    {
      assert (3 * i) / 3 == i && (3 * i) % 3 == 0;
      assert (3 * i + 1) / 3 == i && (3 * i + 1) % 3 == 1;
      assert (3 * i + 2) / 3 == i && (3 * i + 2) % 3 == 2;
      buf[3 * i] := HexDigit(data[i] / 16);
      buf[3 * i + 1] := HexDigit(data[i] % 16);
      buf[3 * i + 2] := ' ';
      i := i + 1;
    }
    buf[3 * |data|] := '\0';
    text := buf[..3 * |data|];
    DumpUnique(text, Dump(data), data);
  }

  /** The formatter as written: the buffer has exactly `3 * |data|`
      characters. Each iteration stores the two digits and the NUL that
      `snprintf` appends, then overwrites the NUL with a space. The final
      terminator store is not performed; `terminatorAt` is the index it
      targets, which lies outside the buffer. */
  method FormatReportAsWritten(data: seq<byte>) returns (buf: array<char>, terminatorAt: int)
    ensures buf.Length == 3 * |data|
    ensures buf[..] == Dump(data)
    ensures terminatorAt == 3 * |data| && !(0 <= terminatorAt < buf.Length)
  {
    buf := new char[3 * |data|];
    var i := 0;
    while i < |data|
      invariant 0 <= i <= |data|
      invariant forall k :: 0 <= k < 3 * i ==> buf[k] == DumpChar(data, k)
    {
      assert (3 * i) / 3 == i && (3 * i) % 3 == 0;
      assert (3 * i + 1) / 3 == i && (3 * i + 1) % 3 == 1;
      assert (3 * i + 2) / 3 == i && (3 * i + 2) % 3 == 2;
      buf[3 * i] := HexDigit(data[i] / 16);
      buf[3 * i + 1] := HexDigit(data[i] % 16);
      buf[3 * i + 2] := '\0';
      buf[3 * i + 2] := ' ';
      i := i + 1;
    }
    terminatorAt := 3 * |data|;
    DumpUnique(buf[..], Dump(data), data);
  }

  /** Two dumps of the same bytes are the same string. */
  lemma DumpUnique(s: string, t: string, data: seq<byte>)
    requires IsDumpOf(s, data) && IsDumpOf(t, data)
    ensures s == t
  {
  }

  /** Every index `on_output_report_written` stores to, in order, for a report
      of `n` bytes: `snprintf` writes the two digits and a NUL at 3i..3i+2, the
      space then overwrites 3i+2, and the terminator goes to index 3n.
      This list is a summary of the stores `FormatReportAsWritten` and
      `FormatReport` make on their arrays, where Dafny checks each index
      against the array's length; it states the bounds question on its own,
      for any `n`, and has to be kept in step with those two methods. */
  function SourceWrites(n: nat): (w: seq<int>)
  {
    LoopWrites(n) + [3 * n]
  }

  /** The indices stored to by the first `n` loop iterations. */
  function LoopWrites(n: nat): (w: seq<int>)
  {
    if n == 0 then []
    else LoopWrites(n - 1) + [3 * (n - 1), 3 * (n - 1) + 1, 3 * (n - 1) + 2, 3 * (n - 1) + 2]
  }

  ghost predicate AllInBounds(writes: seq<int>, length: int)
  {
    forall j :: 0 <= j < |writes| ==> 0 <= writes[j] < length
  }

  /** Every loop iteration stays inside the `3 * n`-character array. */
  lemma {:induction false} LoopWritesInBounds(n: nat)
    ensures |LoopWrites(n)| == 4 * n
    ensures AllInBounds(LoopWrites(n), 3 * n)
  {
    if n > 0 {
      LoopWritesInBounds(n - 1);
    }
  }

  /** As written, the array `data_str` has `3 * n` elements, and the final
      terminator store lands on index `3 * n`, one past its end. */
  lemma SourceTerminatorOutOfBounds(n: nat)
    ensures !AllInBounds(SourceWrites(n), 3 * n)
    ensures SourceWrites(n)[|SourceWrites(n)| - 1] == 3 * n
  {
    LoopWritesInBounds(n);
    var w := SourceWrites(n);
    assert w[|w| - 1] == 3 * n;
  }

  /** With one more element, as `FormatReport` allocates, every store of the
      source, terminator included, is in bounds. */
  lemma CorrectedWritesInBounds(n: nat)
    ensures AllInBounds(SourceWrites(n), 3 * n + 1)
  {
    LoopWritesInBounds(n);
  }
}
