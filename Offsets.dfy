/** The offset format shared by both uniqueifier variants: a minute-precision
    event date becomes `eventDate + ":" + DD` for a two-digit offset DD in
    00..59. */
module Offsets {

  datatype Option<T> = None | Some(value: T)

  /** What `Uniquify` hands back: the disambiguated event date, or the
      "Unique file name cannot be created" exception. */
  datatype Outcome = Unique(eventDate: string) | Exhausted

  /** Offsets 0..59 are tried, in that order. */
  const Slots: nat := 60

  predicate IsDigit(c: char) { '0' <= c <= '9' }

  function Digit(d: nat): (c: char)
    requires d < 10
    ensures IsDigit(c)
  {
    ('0' as int + d) as char
  }

  function DigitValue(c: char): (d: nat)
    requires IsDigit(c)
    ensures d < 10 && Digit(d) == c
  {
    (c as int - '0' as int)
  }

  /** The `{1:D2}` format item: exactly two decimal digits, zero-padded. */
  function TwoDigits(i: nat): (s: string)
    requires i < 100
    ensures |s| == 2 && IsDigit(s[0]) && IsDigit(s[1])
  {
    [Digit(i / 10), Digit(i % 10)]
  }

  /** The two digits read back as the offset they were written from. */
  lemma TwoDigitsValue(i: nat)
    requires i < 100
    ensures DigitValue(TwoDigits(i)[0]) * 10 + DigitValue(TwoDigits(i)[1]) == i
  {
  }

  /** `string.Format("{0}:{1:D2}", eventDate, i)`. */
  function Candidate(eventDate: string, i: nat): (s: string)
    requires i < Slots
    ensures |s| == |eventDate| + 3
    ensures StartsWith(s, eventDate) && s[|eventDate|] == ':'
  {
    eventDate + ":" + TwoDigits(i)
  }

  predicate StartsWith(s: string, prefix: string) {
    |prefix| <= |s| && s[..|prefix|] == prefix
  }

  /** Reads a candidate back into its event date and offset: the inverse of
      `Candidate`. */
  function SplitCandidate(s: string): (r: Option<(string, nat)>)
    ensures r.Some? ==> r.value.1 < 100 && s == r.value.0 + ":" + TwoDigits(r.value.1)
  {
    var n := |s|;
    if n >= 3 && s[n - 3] == ':' && IsDigit(s[n - 2]) && IsDigit(s[n - 1]) then
      var i := DigitValue(s[n - 2]) * 10 + DigitValue(s[n - 1]);
      TwoDigitsValue(i);
      assert TwoDigits(i) == s[n - 2..];
      Some((s[..n - 3], i))
    else
      None
  }

  lemma CandidateRoundTrip(eventDate: string, i: nat)
    requires i < Slots
    ensures SplitCandidate(Candidate(eventDate, i)) == Some((eventDate, i))
  {
    var s := Candidate(eventDate, i);
    var n := |s|;
    TwoDigitsValue(i);
    assert s[..n - 3] == eventDate;
    assert s[n - 3] == ':';
  }

  /** Two candidates are equal exactly when both the event date and the offset
      are: distinct offsets never collide, not even across event dates. */
  lemma CandidateInjective(date1: string, i: nat, date2: string, j: nat)
    requires i < Slots && j < Slots
    ensures Candidate(date1, i) == Candidate(date2, j) <==> date1 == date2 && i == j
  {
    if Candidate(date1, i) == Candidate(date2, j) {
      CandidateRoundTrip(date1, i);
      CandidateRoundTrip(date2, j);
    }
  }

  /** The colon count of `eventDate.Value.Count(c => c == ':')`. */
  function ColonCount(s: string): nat {
    if s == [] then 0 else (if s[0] == ':' then 1 else 0) + ColonCount(s[1..])
  }

  lemma {:induction false} ColonCountConcat(a: string, b: string)
    ensures ColonCount(a + b) == ColonCount(a) + ColonCount(b)
  {
    if a != [] {
      assert (a + b)[1..] == a[1..] + b;
      ColonCountConcat(a[1..], b);
    } else {
      assert a + b == b;
    }
  }

  /** Disambiguating adds exactly one colon: a minute-precision date such as
      `2016-01-01T10:15` (one colon) becomes one with seconds (two colons),
      which a later pass treats as already disambiguated. */
  lemma CandidateColons(eventDate: string, i: nat)
    requires i < Slots
    ensures ColonCount(Candidate(eventDate, i)) == ColonCount(eventDate) + 1
  {
    var d := TwoDigits(i);
    ColonCountConcat(eventDate + ":", d);
    ColonCountConcat(eventDate, ":");
    assert ColonCount(d) == 0 by {
      assert d[1..][1..] == [];
    }
  }
}
