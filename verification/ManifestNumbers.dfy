/** The numbers of a manifest's text, read by a reader of their own. */
module ManifestNumbers {
  import opened Common
  import opened ManifestText
  import opened ManifestRoundTrip

  /** ASCII decimal digits, by their codes. */
  predicate AllDigits(s: string) {
    forall i :: 0 <= i < |s| ==> 48 <= s[i] as int <= 57
  }

  /** The number a run of digits spells after `acc`. */
  function SpelledFrom(s: string, acc: int): int {
    if s == "" then acc else SpelledFrom(s[1..], 10 * acc + (s[0] as int - 48))
  }

  function Spelled(s: string): int { SpelledFrom(s, 0) }

  lemma {:induction false} SpelledSnoc(s: string, c: char, acc: int)
    ensures SpelledFrom(s + [c], acc) == 10 * SpelledFrom(s, acc) + (c as int - 48)
    decreases |s|
  {
    if s == "" {
      assert s + [c] == [c];
      assert [c][1..] == "";
    } else {
      assert (s + [c])[1..] == s[1..] + [c];
      SpelledSnoc(s[1..], c, 10 * acc + (s[0] as int - 48));
    }
  }

  /** A printed number is decimal digits that spell it, without a leading zero. */
  lemma {:induction false} DecimalSpells(n: nat)
    ensures AllDigits(Decimal(n)) && Spelled(Decimal(n)) == n
    ensures Decimal(n) != "" && (|Decimal(n)| > 1 ==> Decimal(n)[0] as int != 48)
    decreases n
  {
    if n < 10 {
      assert Decimal(n)[1..] == "";
      assert Spelled(Decimal(n)) == SpelledFrom("", Decimal(n)[0] as int - 48);
    } else {
      DecimalSpells(n / 10);
      SpelledSnoc(Decimal(n / 10), DigitChar(n % 10), 0);
      LeadingDigit(n / 10);
    }
  }

  lemma {:induction false} LeadingDigit(n: nat)
    requires n > 0
    ensures Decimal(n) != "" && Decimal(n)[0] as int != 48
    decreases n
  {
    if n >= 10 { LeadingDigit(n / 10); }
  }

  /** Reading a run of digits gives the number it spells, modulo 2^64; the run ends at the first other character. */
  lemma UintReads(ws: string, d: string, rest: string)
    requires AllSpace(ws) && d != "" && AllDigits(d) && (rest == "" || !AllDigits(rest[..1]))
    ensures ParseUint(ws + (d + rest)) == Got((Spelled(d) % 0x1_0000_0000_0000_0000) as nat, rest)
  {
    SkipSpaces(ws, d + rest);
    DigitsRead(d, rest, 0, 0, false);
  }

  lemma {:induction false} DigitsRead(d: string, rest: string, acc: int, v: nat, any: bool)
    requires AllDigits(d) && (rest == "" || !AllDigits(rest[..1])) && (any || d != "")
    requires v == acc % 0x1_0000_0000_0000_0000
    ensures Digits(d + rest, v, any) == Got((SpelledFrom(d, acc) % 0x1_0000_0000_0000_0000) as nat, rest)
    decreases |d|
  {
    hide *;
    if d == "" {
      RunEnds(d, rest, acc, v);
    } else {
      var next := 10 * acc + (d[0] as int - 48);
      FirstDigit(d);
      DigitsStep(d[0], d[1..] + rest, v, any);
      assert d + rest == [d[0]] + (d[1..] + rest);
      WrapStep(acc, v, DigitValue(d[0]));
      DigitsRead(d[1..], rest, next, Wrap64(v * 10 + DigitValue(d[0])), true);
      SpelledStep(d, acc);
    }
  }

  lemma RunEnds(d: string, rest: string, acc: int, v: nat)
    requires d == "" && (rest == "" || !AllDigits(rest[..1]))
    ensures Digits(d + rest, v, true) == Got(v, rest) && SpelledFrom(d, acc) == acc
  {
    assert d + rest == rest;
    assert rest != "" ==> rest[..1] == [rest[0]];
  }

  lemma FirstDigit(d: string)
    requires d != "" && AllDigits(d)
    ensures IsDigit(d[0]) && DigitValue(d[0]) == d[0] as int - 48 && AllDigits(d[1..])
  {
  }

  lemma SpelledStep(d: string, acc: int)
    requires d != ""
    ensures SpelledFrom(d, acc) == SpelledFrom(d[1..], 10 * acc + (d[0] as int - 48))
  {
  }

  lemma WrapStep(acc: int, v: nat, x: nat)
    requires v == acc % 0x1_0000_0000_0000_0000
    ensures Wrap64(v * 10 + x) == (10 * acc + x) % 0x1_0000_0000_0000_0000
  {
    WrapMore(v * 10 + x, 10 * (acc / 0x1_0000_0000_0000_0000));
  }

  lemma WrapMore(y: int, k: int)
    ensures (y + k * 0x1_0000_0000_0000_0000) % 0x1_0000_0000_0000_0000 == y % 0x1_0000_0000_0000_0000
  {
  }

  /** Without a digit there is no number. */
  lemma UintNeedsDigit(ws: string, rest: string)
    requires AllSpace(ws) && (rest == "" || (!AllDigits(rest[..1]) && !IsSpace(rest[0])))
    ensures ParseUint(ws + rest).Fail?
  {
    SkipSpaces(ws, rest);
    assert rest != "" ==> rest[..1] == [rest[0]];
  }

  /** White space is the four characters JSON allows between tokens. */
  lemma SpaceCodes(c: char)
    ensures IsSpace(c) <==> c as int in {9, 10, 13, 32}
  {
  }

  /** Within a string a backslash makes the next character stand for itself, but for newline, return and tab. */
  lemma EscapeReads(c: char, rest: string, acc: string)
    ensures StringBody("\\" + ([c] + rest), acc) ==
      StringBody(rest, acc + [if c == 'n' then 10 as char else if c == 'r' then 13 as char
                              else if c == 't' then 9 as char else c])
  {
    var t := "\\" + ([c] + rest);
    assert t[2..] == rest && t[1] == c;
  }
}
