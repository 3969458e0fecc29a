/** Zero-padded decimal ids: rendering them and reading them back
    (f"{doc}-{slot:02d}" and `rsplit("-", 1)` in scripts/draft_golden_questions_casco.py,
    f"{type}-{seq:03d}" in scripts/finalize_golden_set_from_review.py). */
module RowIds {
  import opened Outcomes

  predicate IsDigit(c: char) { '0' <= c <= '9' }

  predicate AllDigits(s: string) { forall i :: 0 <= i < |s| ==> IsDigit(s[i]) }

  function Digit(n: nat): char
    requires n < 10
  {
    ('0' as int + n) as char
  }

  /** Decimal digits, padded with zeros on the left to at least `width`. */
  function Pad(n: nat, width: nat): string {
    if n < 10 && width <= 1 then [Digit(n)]
    else Pad(n / 10, if width == 0 then 0 else width - 1) + [Digit(n % 10)]
  }

  function ReadNat(s: string): nat
    requires AllDigits(s)
  {
    if s == [] then 0 else 10 * ReadNat(s[..|s| - 1]) + (s[|s| - 1] as int - '0' as int)
  }

  /** Reading a padded number gives the number back. */
  lemma {:induction false} ReadPad(n: nat, width: nat)
    ensures AllDigits(Pad(n, width)) && Pad(n, width) != [] && ReadNat(Pad(n, width)) == n
  {
    if n < 10 && width <= 1 {
      assert Pad(n, width)[..0] == [];
    } else {
      var w := if width == 0 then 0 else width - 1;
      ReadPad(n / 10, w);
      assert Pad(n, width)[..|Pad(n, width)| - 1] == Pad(n / 10, w);
    }
  }

  lemma {:induction false} PadLength(n: nat, width: nat)
    ensures |Pad(n, width)| >= 1 && |Pad(n, width)| >= width
    ensures |Pad(n, width)| == 1 <==> n < 10 && width <= 1
    ensures n >= 10 || width > 1 ==> |Pad(n, width)| == |Pad(n / 10, if width == 0 then 0 else width - 1)| + 1
  {
    if n >= 10 || width > 1 { PadLength(n / 10, if width == 0 then 0 else width - 1); }
  }

  /** Three padded digits hold exactly the numbers up to 999. */
  lemma PadThree(n: nat)
    ensures |Pad(n, 3)| == 3 <==> n <= 999
  {
    PadLength(n, 3);
    PadLength(n / 10, 2);
    PadLength(n / 10 / 10, 1);
  }

  // ----- ids of the form <prefix>-<number>

  function Render(prefix: string, n: nat, width: nat): string {
    prefix + "-" + Pad(n, width)
  }

  function LastDash(s: string): Option<nat> {
    if s == [] then None
    else if s[|s| - 1] == '-' then Some(|s| - 1)
    else LastDash(s[..|s| - 1])
  }

  /** `rsplit("-", 1)` followed by reading the second part as a number; None where the source raises. */
  function Parse(s: string): Option<(string, nat)> {
    match LastDash(s)
    case None => None
    case Some(d) =>
      if d < |s| && s[d + 1..] != [] && AllDigits(s[d + 1..]) then Some((s[..d], ReadNat(s[d + 1..]))) else None
  }

  lemma {:induction false} LastDashOf(prefix: string, tail: string)
    requires forall i :: 0 <= i < |tail| ==> tail[i] != '-'
    ensures LastDash(prefix + "-" + tail) == Some(|prefix|)
  {
    var s := prefix + "-" + tail;
    if tail == [] {
      assert s[|s| - 1] == '-';
    } else {
      assert s[|s| - 1] == tail[|tail| - 1];
      LastDashOf(prefix, tail[..|tail| - 1]);
      assert s[..|s| - 1] == prefix + "-" + tail[..|tail| - 1];
    }
  }

  /** A rendered id parses back to its parts, so rendering is injective. */
  lemma ParseRender(prefix: string, n: nat, width: nat)
    ensures Parse(Render(prefix, n, width)) == Some((prefix, n))
  {
    var tail := Pad(n, width);
    ReadPad(n, width);
    LastDashOf(prefix, tail);
    var s := Render(prefix, n, width);
    assert s[|prefix| + 1..] == tail && s[..|prefix|] == prefix;
  }

  /** An id is read if and only if it is the prefix, a dash and at least one digit, and nothing else
      follows; the number is that of the digits. */
  lemma ParseExactly(s: string, prefix: string, n: nat)
    ensures Parse(s) == Some((prefix, n)) <==> IsNumbered(s, prefix) && n == ReadNat(s[|prefix| + 1..])
  {
    if IsNumbered(s, prefix) { NumberedIsParsed(s, prefix); }
    if Parse(s) == Some((prefix, n)) { ParsedIsNumbered(s, prefix, n); }
  }

  predicate IsNumbered(s: string, prefix: string) {
    && |s| > |prefix| + 1 && s[..|prefix|] == prefix && s[|prefix|] == '-'
    && forall i :: |prefix| < i < |s| ==> '0' <= s[i] <= '9'
  }

  lemma NumberedIsParsed(s: string, prefix: string)
    requires IsNumbered(s, prefix)
    ensures AllDigits(s[|prefix| + 1..]) && Parse(s) == Some((prefix, ReadNat(s[|prefix| + 1..])))
  {
    var tail := s[|prefix| + 1..];
    assert s == prefix + "-" + tail;
    LastDashOf(prefix, tail);
  }

  lemma ParsedIsNumbered(s: string, prefix: string, n: nat)
    requires Parse(s) == Some((prefix, n))
    ensures IsNumbered(s, prefix) && AllDigits(s[|prefix| + 1..]) && n == ReadNat(s[|prefix| + 1..])
  {
    LastDashIs(s);
    var tail := s[|prefix| + 1..];
    assert forall i :: |prefix| < i < |s| ==> s[i] == tail[i - |prefix| - 1];
  }

  lemma {:induction false} LastDashIs(s: string)
    ensures LastDash(s).Some? ==> LastDash(s).value < |s| && s[LastDash(s).value] == '-'
  {
    if s != [] { LastDashIs(s[..|s| - 1]); }
  }

  /** The numbers that fit are written with all their digits, zeros in front. */
  lemma PaddedDigits(n: nat)
    ensures n <= 99 ==> Pad(n, 2) == [Digit(n / 10), Digit(n % 10)]
    ensures n <= 999 ==> Pad(n, 3) == [Digit(n / 100), Digit(n / 10 % 10), Digit(n % 10)]
  {
    TwoDigits(n);
    TwoDigits(n / 10);
    assert Pad(n, 3) == Pad(n / 10, 2) + [Digit(n % 10)];
    assert n / 10 / 10 == n / 100;
  }

  lemma TwoDigits(n: nat)
    ensures n <= 99 ==> Pad(n, 2) == [Digit(n / 10), Digit(n % 10)]
  {
    assert Pad(n, 2) == Pad(n / 10, 1) + [Digit(n % 10)];
    if n <= 99 { assert Pad(n / 10, 1) == [Digit(n / 10)]; }
  }

  /** Beyond the width no zero is put in front. */
  lemma {:induction false} NoNeedlessZero(n: nat, width: nat)
    ensures |Pad(n, width)| > 1 && |Pad(n, width)| > width ==> Pad(n, width)[0] != '0'
  {
    if n >= 10 || width > 1 {
      var w := if width == 0 then 0 else width - 1;
      NoNeedlessZero(n / 10, w);
      PadLength(n, width);
      PadLength(n / 10, w);
    }
  }
}
