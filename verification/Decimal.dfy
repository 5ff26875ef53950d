/** Decimal text: how counters and package ordinals are written, and how counters are read back. */
module Decimal {
  import opened Common

  const MAX_INT64: nat := 0x7fff_ffff_ffff_ffff

  function DigitChar(d: nat): char
    requires d < 10
  {
    '0' + d as char
  }

  /** The decimal form of a number, as "%d" and Redis print it. */
  function Render(n: nat): (s: string)
    ensures s != "" && forall i :: 0 <= i < |s| ==> '0' <= s[i] <= '9'
  {
    if n < 10 then [DigitChar(n)] else Render(n / 10) + [DigitChar(n % 10)]
  }

  /** The value of a string of digits; None if it is empty or holds anything else. */
  function Digits(s: string): Option<nat> {
    if s == "" then None
    else
      var c := s[|s| - 1];
      if !('0' <= c <= '9') then None
      else if |s| == 1 then Some((c - '0') as nat)
      else match Digits(s[..|s| - 1])
        case None => None
        case Some(v) => Some(10 * v + (c - '0') as nat)
  }

  /** `strconv.ParseInt(s, 10, 64)`: an optional sign, digits, and the range of a signed 64-bit word. */
  function ParseInt64(s: string): Option<int> {
    if s == "" then None
    else
      var signed := s[0] == '+' || s[0] == '-';
      match Digits(if signed then s[1..] else s)
      case None => None
      case Some(v) =>
        var n: int := v;
        if s[0] == '-' then (if n <= MAX_INT64 + 1 then Some(-n) else None)
        else if n <= MAX_INT64 then Some(n) else None
  }

  /** Counter text to number: missing or unreadable text counts as zero. */
  function ParseCounter(s: string): int {
    if s == "" then 0
    else match ParseInt64(s)
      case None => 0
      case Some(v) => v
  }

  /** The label of the package with this ordinal. */
  function VersionLabel(n: nat): string {
    "v" + Render(n)
  }

  lemma {:induction false} DigitsOfRender(n: nat)
    ensures Digits(Render(n)) == Some(n)
  {
    if n >= 10 {
      DigitsOfRender(n / 10);
      assert Render(n)[..|Render(n)| - 1] == Render(n / 10);
    }
  }

  /** Reading a rendered counter gives it back exactly while it fits a signed 64-bit word;
      anything larger reads as zero. */
  lemma ParseCounterOfRender(n: nat)
    ensures ParseCounter(Render(n)) == if n <= MAX_INT64 then n else 0
    ensures ParseCounter(Render(n)) == n <==> n <= MAX_INT64
  {
    DigitsOfRender(n);
    assert '0' <= Render(n)[0] <= '9';
  }

  /** A string reads as digits exactly when it is some, and only digits. */
  lemma {:induction false} DigitsIff(s: string)
    ensures Digits(s).Some? <==> s != "" && forall i | 0 <= i < |s| :: '0' <= s[i] <= '9'
  {
    if |s| > 1 {
      DigitsIff(s[..|s| - 1]);
      assert forall i | 0 <= i < |s| - 1 :: s[..|s| - 1][i] == s[i];
    }
  }

  /** Text that is not a decimal number, one sign allowed, counts as zero. */
  lemma UnreadableCounter(s: string, i: nat)
    requires i < |s| && !('0' <= s[i] <= '9') && (i == 0 ==> s[0] != '+' && s[0] != '-')
    ensures ParseCounter(s) == 0
  {
    var signed := s[0] == '+' || s[0] == '-';
    var body := if signed then s[1..] else s;
    DigitsIff(body);
    assert body[if signed then i - 1 else i] == s[i];
  }

  /** A sign is honoured down to the smallest signed 64-bit word, and beyond either end of the range
      the text counts as zero. */
  lemma SignedCounter(n: nat)
    ensures ParseCounter(['+'] + Render(n)) == if n <= MAX_INT64 then n else 0
    ensures ParseCounter(['-'] + Render(n)) == if n <= MAX_INT64 + 1 then 0 - n as int else 0
  {
    SignedText('+', n);
    SignedText('-', n);
  }

  lemma SignedText(sign: char, n: nat)
    requires sign == '+' || sign == '-'
    ensures var s := [sign] + Render(n);
      s != "" && s[0] == sign && Digits(s[1..]) == Some(n)
  {
    assert ([sign] + Render(n))[1..] == Render(n);
    DigitsOfRender(n);
  }

  /** A label is "v" followed by its ordinal's decimal form. */
  lemma VersionLabelReads(n: nat)
    ensures |VersionLabel(n)| > 1 && VersionLabel(n)[0] == 'v' && Digits(VersionLabel(n)[1..]) == Some(n)
  {
    assert VersionLabel(n)[1..] == Render(n);
    DigitsOfRender(n);
  }

  /** Two ordinals share a label only when they are the same ordinal. */
  lemma VersionLabelInjective(m: nat, n: nat)
    ensures VersionLabel(m) == VersionLabel(n) <==> m == n
  {
    if VersionLabel(m) == VersionLabel(n) {
      assert VersionLabel(m)[1..] == Render(m) && VersionLabel(n)[1..] == Render(n);
      DigitsOfRender(m);
      DigitsOfRender(n);
    }
  }
}
