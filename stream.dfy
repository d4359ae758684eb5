/**
 * Two manipulators of include/raz/stream.hpp: `hex`, which writes the bytes
 * of a value as lower-case hexadecimal digits in memory order, and `format`,
 * which copies a printf-like format string to the stream and turns a
 * conversion specification at its very end into stream settings.
 *
 * A C string is the sequence of its characters before the terminator; the
 * source reads the terminator itself as '\0', which At gives back for the
 * position just past the end. Digits are the characters '0' .. '9' of the
 * classic locale.
 */
module Stream {
  import opened Wrappers
  import opened Codec

  /** The digit map of hex. */
  const HexDigits: string := "0123456789abcdef"

  /** The character HexDigits holds at position n. */
  function HexDigit(n: nat): char
    requires n < 16
  {
    if n < 10 then ('0' as int + n) as char else ('a' as int + n - 10) as char
  }

  lemma HexDigitsSpelled()
    ensures forall n :: 0 <= n < 16 ==> HexDigits[n] == HexDigit(n)
  {
  }

  /** The two digits hex writes for one byte: b / 16, then b - (b / 16) * 16. */
  function HexPair(b: byte): (r: string)
    ensures |r| == 2 && r[0] in HexDigits && r[1] in HexDigits
  {
    [HexDigits[b / 16], HexDigits[b % 16]]
  }

  /** What hex writes for the bytes of a value, taken in memory order. */
  function HexString(bytes: seq<byte>): (r: string)
    ensures |r| == 2 * |bytes|
    ensures forall k :: 0 <= k < |r| ==> r[k] in HexDigits
  {
    if |bytes| == 0 then [] else HexPair(bytes[0]) + HexString(bytes[1..])
  }

  /** The value of a hexadecimal digit. */
  function DigitValue(c: char): (v: nat)
    ensures v < 16
  {
    if '0' <= c <= '9' then c as int - '0' as int
    else if 'a' <= c <= 'f' then c as int - 'a' as int + 10
    else 0
  }

  /** Reading hex's output back: every pair of digits gives one byte. */
  function UnHex(s: string): seq<byte>
  {
    if |s| < 2 then [] else [DigitValue(s[0]) * 16 + DigitValue(s[1])] + UnHex(s[2..])
  }

  /** One byte's pair of digits reads back as the byte. */
  lemma PairRoundTrip(b: byte)
    ensures DigitValue(HexPair(b)[0]) * 16 + DigitValue(HexPair(b)[1]) == b
  {
    HexDigitsSpelled();
  }

  /** Reading back a string that starts with a pair of digits reads that pair, then the rest. */
  lemma UnHexPair(pair: string, rest: string)
    requires |pair| == 2
    ensures UnHex(pair + rest) == UnHex(pair) + UnHex(rest)
  {
    var s := pair + rest;
    assert s[0] == pair[0] && s[1] == pair[1] && s[2..] == rest;
    assert pair[2..] == [];
  }

  /** One byte's pair of digits, read back on its own, is that byte. */
  lemma PairReadsBack(b: byte)
    ensures UnHex(HexPair(b)) == [b]
  {
    PairRoundTrip(b);
    assert HexPair(b)[2..] == [];
  }

  /** hex's output determines the bytes: reading it back gives them again. */
  lemma {:induction false} HexRoundTrip(bytes: seq<byte>)
    ensures UnHex(HexString(bytes)) == bytes
  {
    if |bytes| > 0 {
      var b := bytes[0];
      var rest := HexString(bytes[1..]);
      assert HexString(bytes) == HexPair(b) + rest;
      UnHexPair(HexPair(b), rest);
      PairReadsBack(b);
      HexRoundTrip(bytes[1..]);
      assert bytes == [b] + bytes[1..];
    }
  }

  /** Different bytes give different hex output. */
  lemma HexInjective(a: seq<byte>, b: seq<byte>)
    requires HexString(a) == HexString(b)
    ensures a == b
  {
    HexRoundTrip(a);
    HexRoundTrip(b);
  }

  /** hex: two digits per byte, in memory order. */
  method Hex(bytes: seq<byte>) returns (s: string)
    ensures s == HexString(bytes)
  {
    s := [];
    for i := 0 to |bytes|
      invariant s + HexString(bytes[i..]) == HexString(bytes)
    {
      var first := bytes[i] / 16;
      var second := bytes[i] - first * 16;
      assert bytes[i..][1..] == bytes[i + 1..];
      s := s + [HexDigits[first], HexDigits[second]];
    }
    assert bytes[|bytes|..] == [];
  }

  /** The fmtflags format can set; Right is only ever cleared, with the adjustfield. */
  datatype Flag =
    | ShowPos | Left | Right | Internal | ShowBase | ShowPoint | Uppercase
    | Dec | Oct | HexBase | Fixed | Scientific

  /** adjustfield | basefield | floatfield, which format clears before setting its flags. */
  const FieldFlags: set<Flag> := {Left, Right, Internal, Dec, Oct, HexBase, Fixed, Scientific}

  /** A conversion specification: the flags, width, precision and fill it sets. */
  datatype Spec = Spec(flags: set<Flag>, width: nat, precision: nat, fill: char)

  /** The format string: a C string holds no NUL before its terminator. */
  type CString = s: string | '\0' !in s

  /** fmt[i], where the position just past the end reads the terminator. */
  function At(fmt: string, i: nat): char
    requires i <= |fmt|
  {
    if i < |fmt| then fmt[i] else '\0'
  }

  predicate IsFlagChar(c: char)
  {
    c == '+' || c == '-' || c == '0' || c == '#' || c == ' '
  }

  predicate IsDigit(c: char)
  {
    '0' <= c <= '9'
  }

  /** The flags one character of the flag run adds. */
  function CharFlags(c: char): set<Flag>
  {
    if c == '+' then {ShowPos} else if c == '-' then {Left} else if c == '0' then {Internal} else {}
  }

  /** The flags a run of flag characters sets. */
  function FlagsOf(run: string): (flags: set<Flag>)
    ensures flags <= {ShowPos, Left, Internal}
    ensures ShowPos in flags <==> '+' in run
    ensures Left in flags <==> '-' in run
    ensures Internal in flags <==> '0' in run
  {
    if |run| == 0 then {}
    else
      assert run == run[..|run| - 1] + [run[|run| - 1]];
      FlagsOf(run[..|run| - 1]) + CharFlags(run[|run| - 1])
  }

  /** The end of the run of flag characters from i. */
  function FlagsEnd(fmt: string, i: nat): (j: nat)
    requires i <= |fmt|
    ensures i <= j <= |fmt| && (j < |fmt| ==> !IsFlagChar(fmt[j]))
    decreases |fmt| - i
  {
    if i < |fmt| && IsFlagChar(fmt[i]) then FlagsEnd(fmt, i + 1) else i
  }

  /** The end of the run of digits from i. */
  function DigitsEnd(fmt: string, i: nat): (j: nat)
    requires i <= |fmt|
    ensures i <= j <= |fmt| && (j < |fmt| ==> !IsDigit(fmt[j]))
    decreases |fmt| - i
  {
    if i < |fmt| && IsDigit(fmt[i]) then DigitsEnd(fmt, i + 1) else i
  }

  /** The decimal value of a run of digits; the empty run is 0. */
  function DecimalValue(digits: string): nat
  {
    if |digits| == 0 then 0
    else
      var last := digits[|digits| - 1];
      DecimalValue(digits[..|digits| - 1]) * 10 + (if IsDigit(last) then last as int - '0' as int else 0)
  }

  /** atoi(fmt + i) on a position where a run of digits (possibly empty) starts. */
  function Atoi(fmt: string, i: nat): nat
    requires i <= |fmt|
  {
    DecimalValue(fmt[i..DigitsEnd(fmt, i)])
  }

  /**
   * The flags of a conversion letter as the source sets them: 'o' selects
   * the hexadecimal base, like 'x'.
   */
  function ConversionFlags(c: char, alternate: bool): (r: Option<set<Flag>>)
    ensures r.Some? <==> c in "dxXofeEgG"
    ensures r.Some? && alternate && c in "xXo" ==> ShowBase in r.value
    ensures r.Some? && c in "XEG" ==> Uppercase in r.value
  {
    var base := if alternate then {ShowBase} else {};
    var point := if alternate then {ShowPoint} else {};
    match c
    case 'd' => Some({Dec})
    case 'x' => Some({HexBase} + base)
    case 'X' => Some({HexBase, Uppercase} + base)
    case 'o' => Some({HexBase} + base)
    case 'f' => Some({Fixed} + point)
    case 'e' => Some({Scientific} + point)
    case 'E' => Some({Scientific, Uppercase} + point)
    case 'g' => Some(point)
    case 'G' => Some({Uppercase} + point)
    case _ => None
  }

  /** As written, "%o" and "%x" set the same flags: octal output cannot be asked for. */
  lemma OctalIsHex(alternate: bool)
    ensures ConversionFlags('o', alternate) == ConversionFlags('x', alternate)
    ensures Oct !in ConversionFlags('o', alternate).value && HexBase in ConversionFlags('o', alternate).value
  {
  }

  /** The flags of a conversion letter with 'o' selecting the octal base, as printf means it. */
  function IntendedConversionFlags(c: char, alternate: bool): (r: Option<set<Flag>>)
    ensures r.Some? <==> c in "dxXofeEgG"
    ensures r.Some? && alternate && c in "xXo" ==> ShowBase in r.value
    ensures r.Some? && c in "XEG" ==> Uppercase in r.value
    ensures c != 'o' ==> r == ConversionFlags(c, alternate)
  {
    if c == 'o' then Some({Oct} + if alternate then {ShowBase} else {})
    else ConversionFlags(c, alternate)
  }

  /** With the intended flags, d, x and o select the decimal, hexadecimal and octal base, and only that. */
  lemma IntendedBases(alternate: bool)
    ensures var d := IntendedConversionFlags('d', alternate).value;
      Dec in d && HexBase !in d && Oct !in d
    ensures var x := IntendedConversionFlags('x', alternate).value;
      HexBase in x && Dec !in x && Oct !in x
    ensures var o := IntendedConversionFlags('o', alternate).value;
      Oct in o && Dec !in o && HexBase !in o
  {
  }

  /**
   * Which letter table a format string is read with: the source's own
   * (AsWritten, 'o' selects hexadecimal) or the corrected one (Intended,
   * 'o' selects octal). The program is the AsWritten instance.
   */
  datatype ConversionTable = AsWritten | Intended

  /** The flags a conversion letter sets under the given table. */
  function LetterFlags(table: ConversionTable, c: char, alternate: bool): (r: Option<set<Flag>>)
    ensures r.Some? <==> c in "dxXofeEgG"
    ensures r.Some? && alternate && c in "xXo" ==> ShowBase in r.value
    ensures r.Some? && c in "XEG" ==> Uppercase in r.value
    ensures c != 'o' ==> r == ConversionFlags(c, alternate)
  {
    match table
    case AsWritten => ConversionFlags(c, alternate)
    case Intended => IntendedConversionFlags(c, alternate)
  }

  /** The outcome of reading a conversion specification. */
  datatype SpecScan =
    | Accepted(spec: Spec)
    /** the conversion letter is not one of dxXofeEgG, or more text follows it */
    | Rejected
    /** the string ends before a conversion letter: the source reads past the terminator */
    | ReadsPastEnd

  /** Where the conversion letter of the specification that starts at start stands. */
  function ConversionPos(fmt: string, start: nat): (p: nat)
    requires start <= |fmt|
    ensures start <= p <= |fmt|
  {
    var w := FlagsEnd(fmt, start);
    var d := DigitsEnd(fmt, w);
    if At(fmt, d) == '.' then DigitsEnd(fmt, d + 1) else d
  }

  /**
   * The specification that starts at start (just after the '%'): flag
   * characters, a width, '.' and a precision, and the conversion letter,
   * which must be the last character of the string.
   */
  function ScanSpec(fmt: string, start: nat, table: ConversionTable): SpecScan
    requires start <= |fmt|
  {
    var w := FlagsEnd(fmt, start);
    var run := fmt[start..w];
    var d := DigitsEnd(fmt, w);
    var precision := if At(fmt, d) == '.' then Atoi(fmt, d + 1) else 6;
    var p := ConversionPos(fmt, start);
    if p == |fmt| then ReadsPastEnd
    else
      match LetterFlags(table, fmt[p], '#' in run)
      case None => Rejected
      case Some(conversion) =>
        if p + 1 < |fmt| then Rejected
        else Accepted(Spec(FlagsOf(run) + conversion, Atoi(fmt, w), precision, if '0' in run then '0' else ' '))
  }

  /** What format does: the characters it writes, and the specification it applies, if any. */
  datatype Formatted = Formatted(text: string, applied: Option<Spec>)

  function Prepend(s: string, r: Option<Formatted>): Option<Formatted>
  {
    match r
    case None => None
    case Some(f) => Some(f.(text := s + f.text))
  }

  /**
   * format from position i on. None stands for a specification that runs
   * into the end of the string, where the source reads past the terminator.
   */
  function FormatFrom(fmt: string, i: nat, table: ConversionTable): Option<Formatted>
    requires i <= |fmt|
    decreases |fmt| - i
  {
    if i == |fmt| then Some(Formatted([], None))
    else if fmt[i] != '%' then Prepend([fmt[i]], FormatFrom(fmt, i + 1, table))
    else if At(fmt, i + 1) == '%' then Prepend("%", FormatFrom(fmt, i + 2, table))
    else
      match ScanSpec(fmt, i + 1, table)
      case ReadsPastEnd => None
      case Rejected => FormatFrom(fmt, i + 1, table)
      case Accepted(spec) => Some(Formatted([], Some(spec)))
  }

  /** Extending the flag run by one character. */
  lemma FlagRunStep(fmt: string, start: nat, i: nat)
    requires start <= i < |fmt|
    ensures var run, longer := fmt[start..i], fmt[start..i + 1];
      && FlagsOf(longer) == FlagsOf(run) + CharFlags(fmt[i])
      && ('#' in longer <==> '#' in run || fmt[i] == '#')
      && ('0' in longer <==> '0' in run || fmt[i] == '0')
  {
    var run, longer := fmt[start..i], fmt[start..i + 1];
    assert longer == run + [fmt[i]];
    assert longer[..|longer| - 1] == run;
  }

  /** The flag loop of format: the run of flag characters from start, and what it sets. */
  method ScanFlags(fmt: string, start: nat) returns (i: nat, flags: set<Flag>, fill: char, alternate: bool)
    requires start <= |fmt|
    ensures i == FlagsEnd(fmt, start)
    ensures flags == FlagsOf(fmt[start..i]) && alternate == ('#' in fmt[start..i])
    ensures fill == if '0' in fmt[start..i] then '0' else ' '
  {
    i := start;
    flags := {};
    fill := ' ';
    alternate := false;
    var more := true;
    while more
      invariant start <= i <= |fmt|
      invariant FlagsEnd(fmt, start) == if more then FlagsEnd(fmt, i) else i
      invariant flags == FlagsOf(fmt[start..i]) && alternate == ('#' in fmt[start..i])
      invariant fill == if '0' in fmt[start..i] then '0' else ' '
      decreases |fmt| - i, more
    {
      var c := At(fmt, i);
      if IsFlagChar(c) {
        FlagRunStep(fmt, start, i);
      }
      if c == '+' {
        flags := flags + {ShowPos};
      } else if c == '-' {
        flags := flags + {Left};
      } else if c == '0' {
        flags := flags + {Internal};
        fill := '0';
      } else if c == '#' {
        alternate := true;
      } else if c == ' ' {
      } else {
        more := false;
      }
      if more {
        i := i + 1;
      }
    }
  }

  /** The digit-skipping loops of format. */
  method ScanDigits(fmt: string, start: nat) returns (i: nat)
    requires start <= |fmt|
    ensures i == DigitsEnd(fmt, start)
  {
    i := start;
    while IsDigit(At(fmt, i))
      invariant start <= i <= |fmt| && DigitsEnd(fmt, start) == DigitsEnd(fmt, i)
      decreases |fmt| - i
    {
      i := i + 1;
    }
  }

  /** One conversion specification of format, read from start, just after its '%'. */
  method ReadSpec(fmt: CString, start: nat, table: ConversionTable) returns (scan: SpecScan)
    requires start <= |fmt|
    ensures scan == ScanSpec(fmt, start, table)
  {
    var i, flags, fill, alternate := ScanFlags(fmt, start);
    ghost var w := i;
    var width := 0;
    var precision := 6;
    if IsDigit(At(fmt, i)) {
      width := Atoi(fmt, i);
      i := ScanDigits(fmt, i);
    } else {
      assert DigitsEnd(fmt, i) == i && fmt[i..i] == [];
    }
    assert width == Atoi(fmt, w) && i == DigitsEnd(fmt, w);
    ghost var d := i;
    if At(fmt, i) == '.' {
      i := i + 1;
      precision := Atoi(fmt, i);
      i := ScanDigits(fmt, i);
    }
    assert precision == if At(fmt, d) == '.' then Atoi(fmt, d + 1) else 6;
    assert i == ConversionPos(fmt, start);
    if i == |fmt| {
      return ReadsPastEnd;
    }
    var conversion := LetterFlags(table, fmt[i], alternate);
    i := i + 1;
    if conversion.None? || At(fmt, i) != '\0' {
      return Rejected;
    }
    scan := Accepted(Spec(flags + conversion.value, width, precision, fill));
  }

  /** Prepending two pieces of text one after the other. */
  lemma PrependTwice(a: string, b: string, r: Option<Formatted>)
    ensures Prepend(a, Prepend(b, r)) == Prepend(a + b, r)
    ensures Prepend([], r) == r
  {
    if r.Some? {
      assert a + (b + r.value.text) == (a + b) + r.value.text;
      assert [] + r.value.text == r.value.text;
    }
  }

  /**
   * format: characters other than '%' are copied, "%%" writes one '%', and a
   * specification is applied when it is accepted; a rejected one is dropped
   * with its '%' and scanning goes on just after the '%'.
   */
  method Format(fmt: CString, table: ConversionTable) returns (r: Option<Formatted>)
    ensures r == FormatFrom(fmt, 0, table)
  {
    var text := "";
    var i := 0;
    PrependTwice([], [], FormatFrom(fmt, 0, table));
    while At(fmt, i) != '\0'
      invariant i <= |fmt|
      invariant FormatFrom(fmt, 0, table) == Prepend(text, FormatFrom(fmt, i, table))
      decreases |fmt| - i
    {
      if fmt[i] != '%' {
        PrependTwice(text, [fmt[i]], FormatFrom(fmt, i + 1, table));
        text := text + [fmt[i]];
        i := i + 1;
      } else {
        var percent := i;
        i := i + 1;
        if At(fmt, i) == '%' {
          PrependTwice(text, "%", FormatFrom(fmt, i + 1, table));
          text := text + "%";
          i := i + 1;
        } else {
          var scan := ReadSpec(fmt, i, table);
          match scan
          case ReadsPastEnd =>
            return None;
          case Rejected =>
          case Accepted(spec) =>
            assert text + [] == text;
            return Some(Formatted(text, Some(spec)));
        }
      }
    }
    assert i == |fmt| && text + [] == text;
    r := Some(Formatted(text, None));
  }

  /** Literal text: characters other than '%' are written as they are. */
  lemma {:induction false} LiteralPrefix(fmt: string, i: nat, lit: string, table: ConversionTable)
    requires i + |lit| <= |fmt| && fmt[i..i + |lit|] == lit && '%' !in lit
    ensures FormatFrom(fmt, i, table) == Prepend(lit, FormatFrom(fmt, i + |lit|, table))
    decreases |lit|
  {
    if |lit| == 0 {
      PrependTwice([], [], FormatFrom(fmt, i, table));
    } else {
      assert fmt[i] == lit[0] && fmt[i + 1..i + |lit|] == lit[1..];
      LiteralPrefix(fmt, i + 1, lit[1..], table);
      PrependTwice([lit[0]], lit[1..], FormatFrom(fmt, i + |lit|, table));
      assert [lit[0]] + lit[1..] == lit;
    }
  }

  /** A format string without '%' is written unchanged and sets nothing. */
  lemma LiteralsCopied(fmt: string, table: ConversionTable)
    requires '%' !in fmt
    ensures FormatFrom(fmt, 0, table) == Some(Formatted(fmt, None))
  {
    LiteralPrefix(fmt, 0, fmt, table);
    assert fmt[0..|fmt|] == fmt && fmt + [] == fmt;
  }

  /** Everything from i on is literal text when no '%' follows. */
  lemma LiteralTail(fmt: string, i: nat, table: ConversionTable)
    requires i <= |fmt| && '%' !in fmt[i..]
    ensures FormatFrom(fmt, i, table) == Some(Formatted(fmt[i..], None))
  {
    assert fmt[i..i + |fmt[i..]|] == fmt[i..];
    LiteralPrefix(fmt, i, fmt[i..], table);
    assert fmt[i..] + [] == fmt[i..];
  }

  /** "%%" writes a single '%'. */
  lemma EscapedPercent(fmt: string, i: nat, table: ConversionTable)
    requires i + 1 < |fmt| && fmt[i] == '%' && fmt[i + 1] == '%'
    requires '%' !in fmt[..i] && '%' !in fmt[i + 2..]
    ensures FormatFrom(fmt, 0, table) == Some(Formatted(fmt[..i] + "%" + fmt[i + 2..], None))
  {
    assert fmt[0..i] == fmt[..i];
    LiteralPrefix(fmt, 0, fmt[..i], table);
    LiteralTail(fmt, i + 2, table);
    var tail := Some(Formatted(fmt[i + 2..], None));
    assert FormatFrom(fmt, i, table) == Prepend("%", tail);
    PrependTwice(fmt[..i], "%", tail);
  }

  /**
   * A rejected specification loses its '%' and nothing else: the characters
   * after the '%' are written as literal text.
   */
  lemma RejectedSpecDropsPercent(fmt: string, i: nat, table: ConversionTable)
    requires i < |fmt| && fmt[i] == '%' && ScanSpec(fmt, i + 1, table) == Rejected
    requires '%' !in fmt[..i] && '%' !in fmt[i + 1..]
    ensures FormatFrom(fmt, 0, table) == Some(Formatted(fmt[..i] + fmt[i + 1..], None))
  {
    assert fmt[0..i] == fmt[..i];
    LiteralPrefix(fmt, 0, fmt[..i], table);
    assert i + 1 < |fmt| ==> fmt[i + 1] in fmt[i + 1..];
    LiteralTail(fmt, i + 1, table);
  }

  /** A run of flag characters from i up to a character that is none ends at j. */
  lemma {:induction false} FlagsEndIs(fmt: string, i: nat, j: nat)
    requires i <= j <= |fmt| && (j < |fmt| ==> !IsFlagChar(fmt[j]))
    requires forall k :: i <= k < j ==> IsFlagChar(fmt[k])
    ensures FlagsEnd(fmt, i) == j
    decreases j - i
  {
    if i < j {
      FlagsEndIs(fmt, i + 1, j);
    }
  }

  /** A run of digits from i up to a character that is none ends at j. */
  lemma {:induction false} DigitsEndIs(fmt: string, i: nat, j: nat)
    requires i <= j <= |fmt| && (j < |fmt| ==> !IsDigit(fmt[j]))
    requires forall k :: i <= k < j ==> IsDigit(fmt[k])
    ensures DigitsEnd(fmt, i) == j
    decreases j - i
  {
    if i < j {
      DigitsEndIs(fmt, i + 1, j);
    }
  }

  /** ScanSpec once the ends of the flag and width runs are known and the letter is the last character. */
  lemma ScanSpecAccepts(fmt: string, s: nat, w: nat, d: nat, conversion: set<Flag>, table: ConversionTable)
    requires s <= w <= d <= |fmt| && FlagsEnd(fmt, s) == w && DigitsEnd(fmt, w) == d
    requires ConversionPos(fmt, s) + 1 == |fmt|
    requires LetterFlags(table, fmt[|fmt| - 1], '#' in fmt[s..w]) == Some(conversion)
    ensures ScanSpec(fmt, s, table) == Accepted(Spec(FlagsOf(fmt[s..w]) + conversion, Atoi(fmt, w),
      if At(fmt, d) == '.' then Atoi(fmt, d + 1) else 6, if '0' in fmt[s..w] then '0' else ' '))
  {
  }

  /**
   * The grammar of an accepted specification, read from position s: flag
   * characters up to w, a width up to d (which cannot start with '0', a
   * flag), optionally '.' and a precision up to p, and a conversion letter
   * at p that ends the string. The '0' flag makes the fill '0'; an absent
   * width is 0 and an absent precision 6.
   */
  lemma SpecSyntax(fmt: string, s: nat, w: nat, d: nat, p: nat, table: ConversionTable)
    requires s <= w <= d <= p && p + 1 == |fmt|
    requires forall k :: s <= k < w ==> IsFlagChar(fmt[k])
    requires forall k :: w <= k < d ==> IsDigit(fmt[k])
    requires w < d ==> fmt[w] != '0'
    requires d < p ==> fmt[d] == '.' && forall k :: d < k < p ==> IsDigit(fmt[k])
    requires fmt[p] in "dxXofeEgG"
    ensures ScanSpec(fmt, s, table) == Accepted(Spec(
      FlagsOf(fmt[s..w]) + LetterFlags(table, fmt[p], '#' in fmt[s..w]).value,
      DecimalValue(fmt[w..d]),
      if d < p then DecimalValue(fmt[d + 1..p]) else 6,
      if '0' in fmt[s..w] then '0' else ' '))
  {
    FlagsEndIs(fmt, s, w);
    DigitsEndIs(fmt, w, d);
    if d < p {
      DigitsEndIs(fmt, d + 1, p);
    }
    var conversion := LetterFlags(table, fmt[p], '#' in fmt[s..w]);
    ScanSpecAccepts(fmt, s, w, d, conversion.value, table);
  }

  /** The bare conversion letter: width 0, precision 6, fill ' ', and only the letter's flags. */
  lemma DefaultSpec(fmt: string, s: nat, table: ConversionTable)
    requires s + 1 == |fmt| && fmt[s] in "dxXofeEgG"
    ensures ScanSpec(fmt, s, table) == Accepted(Spec(LetterFlags(table, fmt[s], false).value, 0, 6, ' '))
  {
    SpecSyntax(fmt, s, s, s, s, table);
    assert fmt[s..s] == [];
  }

  /**
   * format applies a specification only at the very end of the string:
   * when one is applied, the last character is a conversion letter.
   */
  lemma {:induction false} AppliedOnlyAtEnd(fmt: string, i: nat, table: ConversionTable)
    requires i <= |fmt|
    ensures var r := FormatFrom(fmt, i, table);
      r.Some? && r.value.applied.Some? ==> |fmt| > 0 && fmt[|fmt| - 1] in "dxXofeEgG"
    decreases |fmt| - i
  {
    if i < |fmt| {
      if fmt[i] != '%' {
        AppliedOnlyAtEnd(fmt, i + 1, table);
      } else if At(fmt, i + 1) == '%' {
        AppliedOnlyAtEnd(fmt, i + 2, table);
      } else if ScanSpec(fmt, i + 1, table).Rejected? {
        AppliedOnlyAtEnd(fmt, i + 1, table);
      }
    }
  }

  /** The part of the stream's state format sets. */
  datatype StreamState = StreamState(flags: set<Flag>, width: nat, precision: nat, fill: char)

  /**
   * An accepted specification clears the adjust, base and float fields,
   * then sets its flags, width, precision and fill.
   */
  function Apply(state: StreamState, spec: Spec): (r: StreamState)
    ensures r.flags * FieldFlags == spec.flags * FieldFlags
    ensures r.flags - FieldFlags == (state.flags - FieldFlags) + (spec.flags - FieldFlags)
    ensures r.width == spec.width && r.precision == spec.precision && r.fill == spec.fill
  {
    StreamState((state.flags - FieldFlags) + spec.flags, spec.width, spec.precision, spec.fill)
  }

  /** Applying a specification twice is applying it once. */
  lemma ApplyIdempotent(state: StreamState, spec: Spec)
    ensures Apply(Apply(state, spec), spec) == Apply(state, spec)
  {
    var once := Apply(state, spec);
    assert (once.flags - FieldFlags) + spec.flags == once.flags;
  }

  /**
   * The program as written: format("%o") applies the hexadecimal base, not
   * the octal one, to the next argument.
   */
  lemma OctalFormatIsHex()
    ensures FormatFrom("%o", 0, AsWritten) == Some(Formatted([], Some(Spec({HexBase}, 0, 6, ' '))))
    ensures Oct !in FormatFrom("%o", 0, AsWritten).value.applied.value.flags
  {
    DefaultSpec("%o", 1, AsWritten);
  }

  /** With the corrected table, format("%o") applies the octal base and no other. */
  lemma OctalFormatIsOct()
    ensures FormatFrom("%o", 0, Intended) == Some(Formatted([], Some(Spec({Oct}, 0, 6, ' '))))
    ensures HexBase !in FormatFrom("%o", 0, Intended).value.applied.value.flags
  {
    DefaultSpec("%o", 1, Intended);
  }
}
