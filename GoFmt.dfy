/** The parts of Go's `fmt` package that exterror.go relies on: the decimal
    form `%v` gives an integer, and `Sprintln`, which puts one space between
    consecutive operands and a newline after the last one. */
module GoFmt {
  import opened GoStrings

  predicate IsDigit(c: char) {
    '0' <= c <= '9'
  }

  function DigitChar(d: nat): (c: char)
    requires d < 10
  {
    ('0' as int + d) as char
  }

  /** The number a string of decimal digits stands for. */
  function DigitsValue(s: string): nat
    requires forall i :: 0 <= i < |s| ==> IsDigit(s[i])
  {
    if s == [] then 0
    else
      assert IsDigit(s[|s| - 1]);
      DigitsValue(s[..|s| - 1]) * 10 + (s[|s| - 1] as int - '0' as int)
  }

  /** The decimal digits of `n`, without leading zeros. */
  function Digits(n: nat): (s: string)
    ensures |s| > 0 && forall i :: 0 <= i < |s| ==> IsDigit(s[i])
    ensures s[0] != '0' || n == 0
    ensures DigitsValue(s) == n
  {
    if n < 10 then [DigitChar(n)]
    else
      var s := Digits(n / 10) + [DigitChar(n % 10)];
      assert s[..|s| - 1] == Digits(n / 10);
      s
  }

  /** Reads back what `Decimal` writes: an optional minus sign and digits. */
  function ParseDecimal(s: string): int
    requires |s| > 0
    requires forall i :: 0 < i < |s| ==> IsDigit(s[i])
    requires s[0] == '-' || IsDigit(s[0])
  {
    if s[0] == '-' then -(DigitsValue(s[1..]) as int) else DigitsValue(s)
  }

  /** How `%v` (and so `Sprintln`) writes an integer operand. */
  function Decimal(n: int): (s: string)
    ensures |s| > 0 && (s[0] == '-' || IsDigit(s[0]))
    ensures forall i :: 0 < i < |s| ==> IsDigit(s[i])
    ensures (s[0] == '-') == (n < 0)
    ensures ParseDecimal(s) == n
    ensures n == 0 ==> s == "0"
    ensures n > 0 ==> s[0] != '0'
    ensures n < 0 ==> |s| > 1 && s[1] != '0'
  {
    if n < 0 then
      var s := "-" + Digits(-n);
      assert s[1..] == Digits(-n);
      s
    else Digits(n)
  }

  /** fmt.Sprintln over string operands. */
  function Sprintln(operands: seq<string>): (s: string)
    ensures |s| > 0 && s[|s| - 1] == '\n'
  {
    Join(operands, " ") + "\n"
  }

  /** The operand `x` between `before` and `after` sits between two spaces. */
  lemma SprintlnAround(before: seq<string>, x: string, after: seq<string>)
    requires |before| > 0 && |after| > 0
    ensures Sprintln(before + [x] + after)
            == Join(before, " ") + " " + x + " " + (Join(after, " ") + "\n")
  {
    assert before + [x] + after == before + ([x] + after);
    JoinConcat(before, [x] + after, " ");
    JoinCons(x, after, " ");
    var b, a := Join(before, " "), Join(after, " ");
    assert (b + " " + (x + " " + a)) + "\n" == b + " " + x + " " + (a + "\n");
  }

  /** The text ends with the last two operands and the newline. */
  lemma SprintlnLastTwo(operands: seq<string>)
    requires |operands| >= 3
    ensures var n := |operands|;
            Sprintln(operands)
            == Join(operands[..n - 2], " ") + " " + (operands[n - 2] + " " + operands[n - 1] + "\n")
  {
    var n := |operands|;
    JoinLastTwo(operands, " ");
    var j, x, y := Join(operands[..n - 2], " "), operands[n - 2], operands[n - 1];
    assert (j + " " + (x + " " + y)) + "\n" == j + " " + (x + " " + y + "\n");
  }
}
