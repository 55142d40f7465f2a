/** The skipped section of `print_report`: each printed line is one string
    (a `print` call, without its trailing newline). */
module Render {
  /** Up to this many skipped repositories are listed by name. */
  const ListLimit: nat := 10

  const SkippedHeading: string := "\n## Skipped Repositories"
  const CountSuffix: string := " repos with no changes"

  /** The decimal digit for `d`. */
  function Digit(d: nat): char
    requires d < 10
  {
    ('0' as int + d) as char
  }

  /** The value of a decimal digit character. */
  function DigitValue(c: char): int {
    c as int - '0' as int
  }

  predicate IsDigits(s: string) {
    forall i :: 0 <= i < |s| ==> '0' <= s[i] <= '9'
  }

  /** `str(n)` for a non-negative integer: its decimal digits, with no leading zero. */
  function DecimalString(n: nat): (s: string)
    ensures |s| >= 1 && IsDigits(s)
    ensures s[0] == '0' ==> n == 0
    decreases n
  {
    if n < 10 then [Digit(n)] else DecimalString(n / 10) + [Digit(n % 10)]
  }

  /** The number a string of decimal digits denotes. */
  function ParseDecimal(s: string): int
    requires IsDigits(s)
  {
    if s == [] then 0 else ParseDecimal(s[..|s| - 1]) * 10 + DigitValue(s[|s| - 1])
  }

  /** Reading back the digits `str(n)` prints gives `n`. */
  lemma {:induction false} DecimalRoundTrip(n: nat)
    ensures ParseDecimal(DecimalString(n)) == n
    decreases n
  {
    var s := DecimalString(n);
    if n < 10 {
      assert s[..0] == [];
    } else {
      var init := DecimalString(n / 10);
      assert s[..|s| - 1] == init;
      DecimalRoundTrip(n / 10);
    }
  }

  function Bullet(name: string): string {
    "- " + name
  }

  /** The section for the skipped repositories: nothing when there are none,
      the heading and one bullet per repository when there are at most
      `ListLimit`, and otherwise the heading and their count. The section is
      empty exactly when nothing was skipped, and never longer than the
      heading plus `ListLimit` lines. */
  function SkippedSection(skipped: seq<string>): (lines: seq<string>)
    ensures lines == [] <==> skipped == []
    ensures |lines| <= ListLimit + 1
    ensures skipped != [] ==> lines[0] == SkippedHeading
  {
    if skipped == [] then []
    else if |skipped| <= ListLimit then [SkippedHeading] + seq(|skipped|, i requires 0 <= i < |skipped| => Bullet(skipped[i]))
    else [SkippedHeading, DecimalString(|skipped|) + CountSuffix]
  }

  /** The printing of the skipped section in `print_report`. */
  method PrintSkipped(skipped: seq<string>) returns (out: seq<string>)
    ensures out == SkippedSection(skipped)
  {
    out := [];
    if skipped != [] && |skipped| <= ListLimit {
      out := out + [SkippedHeading];
      for i := 0 to |skipped|
        invariant out == [SkippedHeading] + seq(i, k requires 0 <= k < i => Bullet(skipped[k]))
      {
        out := out + [Bullet(skipped[i])];
      }
    } else if skipped != [] {
      out := out + [SkippedHeading];
      out := out + [DecimalString(|skipped|) + CountSuffix];
    }
  }

  /** Up to `ListLimit` skipped repositories can be read back, in order, from
      the bullets after the heading. */
  lemma SkippedNamesListed(skipped: seq<string>)
    requires 1 <= |skipped| <= ListLimit
    ensures var lines := SkippedSection(skipped);
      |lines| == |skipped| + 1 &&
      forall i :: 0 <= i < |skipped| ==> Bullet(skipped[i]) == lines[i + 1] && lines[i + 1][2..] == skipped[i]
  {
    var lines := SkippedSection(skipped);
    forall i | 0 <= i < |skipped|
      ensures Bullet(skipped[i]) == lines[i + 1] && lines[i + 1][2..] == skipped[i]
    {
      BulletStrip(skipped[i]);
    }
  }

  /** Dropping the two-character bullet marker gives the name back. */
  lemma BulletStrip(name: string)
    ensures Bullet(name)[2..] == name
  {
  }

  /** Beyond `ListLimit`, only the heading and a count line are printed, and the number of skipped
      repositories can be read back from the line after the heading. */
  lemma SkippedCountShown(skipped: seq<string>)
    requires |skipped| > ListLimit
    ensures var lines := SkippedSection(skipped);
      |lines| == 2 &&
      var count := lines[1][..|lines[1]| - |CountSuffix|];
      && lines[1] == count + CountSuffix
      && IsDigits(count) && ParseDecimal(count) == |skipped|
  {
    var lines := SkippedSection(skipped);
    var digits := DecimalString(|skipped|);
    assert lines[1][..|lines[1]| - |CountSuffix|] == digits;
    DecimalRoundTrip(|skipped|);
  }
}
