/** The text of an append-only file: commands in the RESP format, as
    catAppendOnlyGenericCommand prints them, and timestamp annotations. */
module AofFormat {
  import opened Text
  import opened Seqs

  type Argv = seq<string>

  /** A line "#..." or a command. */
  datatype Record = Note(text: string) | Cmd(argv: Argv)

  const CRLF := "\r\n"

  /** AOF_ANNOTATION_LINE_MAX_LEN, the size of the line buffer. */
  const LINE_MAX := 1024

  // ---------------------------------------------------------------- decimal numbers

  function Digit(d: nat): char
    requires d < 10
  {
    '0' + d as char
  }

  predicate IsDigit(c: char) {
    '0' <= c <= '9'
  }

  function DigitValue(c: char): nat
    requires IsDigit(c)
  {
    (c - '0') as int
  }

  /** ll2string on a non-negative number. */
  function Dec(n: nat): (r: string)
    ensures |r| >= 1 && forall i :: 0 <= i < |r| ==> IsDigit(r[i])
    ensures n >= 1 ==> r[0] != '0'
  {
    if n < 10 then [Digit(n)] else Dec(n / 10) + [Digit(n % 10)]
  }

  /** The digits at the start of s, appended to a number read so far. */
  function ReadDigits(s: string, acc: nat): nat {
    if s == "" || !IsDigit(s[0]) then acc else ReadDigits(s[1..], acc * 10 + DigitValue(s[0]))
  }

  /** atoi and strtol: blanks, a sign, digits; anything after them is ignored. */
  function ParseNum(s: string): int {
    if s == "" then 0
    else if IsSpace(s[0]) then ParseNum(s[1..])
    else if s[0] == '-' then -(ReadDigits(s[1..], 0) as int)
    else if s[0] == '+' then ReadDigits(s[1..], 0)
    else ReadDigits(s, 0)
  }

  // ---------------------------------------------------------------- printing

  function Header(mark: char, n: nat): string {
    [mark] + Dec(n) + CRLF
  }

  function PrintArgs(argv: Argv): string {
    if argv == [] then "" else Header('$', |argv[0]|) + argv[0] + CRLF + PrintArgs(argv[1..])
  }

  /** catAppendOnlyGenericCommand */
  function PrintCommand(argv: Argv): string {
    Header('*', |argv|) + PrintArgs(argv)
  }

  /** The loop of catAppendOnlyGenericCommand. */
  method CatGenericCommand(dst: string, argv: Argv) returns (r: string)
    ensures r == dst + PrintCommand(argv)
  {
    hide Dec;
    r := dst + "*" + Dec(|argv|) + "\r\n";
    var j := 0;
    assert argv[0..] == argv;
    while j < |argv|
      invariant 0 <= j <= |argv|
      invariant r + PrintArgs(argv[j..]) == dst + PrintCommand(argv)
    {
      var buf := "$" + Dec(|argv[j]|) + "\r\n";
      PrintedArg(r, argv, j, buf);
      r := r + buf + argv[j] + "\r\n";
      j := j + 1;
    }
  }

  lemma PrintedArg(r: string, argv: Argv, j: nat, buf: string)
    requires j < |argv| && buf == Header('$', |argv[j]|)
    ensures r + PrintArgs(argv[j..]) == (r + buf + argv[j] + CRLF) + PrintArgs(argv[j + 1..])
  {
    hide Header;
    assert argv[j..][0] == argv[j] && argv[j..][1..] == argv[j + 1..];
    Regroup(r, buf, argv[j], CRLF);
    Associates(r, buf + argv[j] + CRLF, PrintArgs(argv[j + 1..]));
  }

  function PrintRecord(r: Record): string {
    match r
    case Note(text) => text + CRLF
    case Cmd(argv) => PrintCommand(argv)
  }

  function Print(rs: seq<Record>): string {
    if rs == [] then "" else PrintRecord(rs[0]) + Print(rs[1..])
  }

  /** Sizes the server can hold: 32-bit counts and 63-bit lengths; annotations fit the line
      buffer and are one line. */
  ghost predicate ValidRecord(r: Record) {
    match r
    case Note(text) => text != "" && text[0] == '#' && |text| + 2 < LINE_MAX && '\n' !in text
    case Cmd(argv) =>
      && 1 <= |argv| < 0x8000_0000
      && forall i :: 0 <= i < |argv| ==> |argv[i]| < 0x8000_0000_0000_0000
  }

  ghost predicate ValidRecords(rs: seq<Record>) {
    forall i :: 0 <= i < |rs| ==> ValidRecord(rs[i])
  }

  // ---------------------------------------------------------------- facts

  lemma {:induction false} ReadDigitsConcat(a: string, b: string, acc: nat)
    requires forall i :: 0 <= i < |a| ==> IsDigit(a[i])
    ensures ReadDigits(a + b, acc) == ReadDigits(b, ReadDigits(a, acc))
  {
    if a == "" {
      assert a + b == b;
    } else {
      assert (a + b)[1..] == a[1..] + b;
      ReadDigitsConcat(a[1..], b, acc * 10 + DigitValue(a[0]));
    }
  }

  lemma {:induction false} DecValue(n: nat)
    ensures ReadDigits(Dec(n), 0) == n
  {
    if n >= 10 {
      var d := [Digit(n % 10)];
      ReadDigitsConcat(Dec(n / 10), d, 0);
      DecValue(n / 10);
      assert d[1..] == "";
      assert ReadDigits(d, n / 10) == n / 10 * 10 + n % 10;
    } else {
      assert [Digit(n)][1..] == "";
    }
  }

  /** A printed number followed by anything but a digit reads back. */
  lemma DecReadsBack(n: nat, rest: string)
    requires rest == "" || !IsDigit(rest[0])
    ensures ParseNum(Dec(n) + rest) == n
  {
    var s := Dec(n) + rest;
    assert s[0] == Dec(n)[0];
    ReadDigitsConcat(Dec(n), rest, 0);
    DecValue(n);
  }

  lemma {:induction false} ReadDigitsGrows(s: string, acc: nat)
    ensures ReadDigits(s, acc) >= acc
  {
    if s != "" && IsDigit(s[0]) {
      ReadDigitsGrows(s[1..], acc * 10 + DigitValue(s[0]));
    }
  }

  /** A number cut short is not negative, and not zero if it starts with another digit. */
  lemma CutNumber(s: string)
    requires s == "" || IsDigit(s[0])
    ensures ParseNum(s) >= 0 && (s != "" && s[0] != '0' ==> ParseNum(s) >= 1)
  {
    if s != "" {
      ReadDigitsGrows(s[1..], DigitValue(s[0]));
    }
  }

  function Pow10(k: nat): nat {
    if k == 0 then 1 else 10 * Pow10(k - 1)
  }

  lemma {:induction false} DecLength(n: nat, k: nat)
    requires k >= 1 && n < Pow10(k)
    ensures |Dec(n)| <= k
  {
    if n >= 10 {
      assert k > 1;
      DecLength(n / 10, k - 1);
    }
  }

  lemma HeaderIsShort(mark: char, n: nat)
    requires n < 0x8000_0000_0000_0000
    ensures |Header(mark, n)| <= 22
  {
    assert Pow10(19) == 10_000_000_000_000_000_000 by {
      assert Pow10(5) == 100_000;
      assert Pow10(10) == 10_000_000_000;
      assert Pow10(15) == 1_000_000_000_000_000;
    }
    DecLength(n, 19);
  }
}
