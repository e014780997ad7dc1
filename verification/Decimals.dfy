/** Canonical unsigned decimals, compared as strings and as numbers. */
module Decimals {
  import opened Options
  import opened Text

  const UINT64_MAX: nat := 0xffff_ffff_ffff_ffff

  predicate IsDigit(c: char) {
    '0' <= c <= '9'
  }

  function DigitValue(c: char): (d: nat)
    requires IsDigit(c)
    ensures d < 10
  {
    c as int - '0' as int
  }

  function DigitChar(d: nat): (c: char)
    requires d < 10
    ensures IsDigit(c) && DigitValue(c) == d
  {
    ('0' as int + d) as char
  }

  predicate AllDigits(s: string) {
    forall i :: 0 <= i < |s| ==> IsDigit(s[i])
  }

  /** The strings matched by `^(0|[1-9][0-9]*)$`. */
  predicate IsCanonical(s: string) {
    s != "" && AllDigits(s) && (s[0] == '0' ==> s == "0")
  }

  function Value(s: string): nat
    requires AllDigits(s)
  {
    if s == "" then 0 else 10 * Value(s[..|s| - 1]) + DigitValue(s[|s| - 1])
  }

  function Print(n: nat): string {
    if n < 10 then [DigitChar(n)] else Print(n / 10) + [DigitChar(n % 10)]
  }

  lemma DigitExactly(c: char)
    ensures IsDigit(c) <==> c in "0123456789"
    ensures IsDigit(c) ==> "0123456789"[DigitValue(c)] == c
  {
    if IsDigit(c) {
      assert "0123456789"[c as int - '0' as int] == c;
    }
  }

  function PowerOfTen(n: nat): nat {
    if n == 0 then 1 else 10 * PowerOfTen(n - 1)
  }

  /** The place-value reading: the first digit counts the highest power of ten. */
  lemma {:induction false} ValueByPlace(c: char, rest: string)
    requires IsDigit(c) && AllDigits(rest)
    ensures AllDigits([c] + rest) && Value([c] + rest) == DigitValue(c) * PowerOfTen(|rest|) + Value(rest)
    decreases |rest|
  {
    var s := [c] + rest;
    if rest == "" {
      assert s[..0] == "";
    } else {
      var front := rest[..|rest| - 1];
      assert s[..|s| - 1] == [c] + front;
      ValueByPlace(c, front);
    }
  }

  lemma {:induction false} PrintIsCanonical(n: nat)
    ensures IsCanonical(Print(n))
    ensures n > 0 ==> Print(n)[0] != '0'
  {
    if n >= 10 {
      PrintIsCanonical(n / 10);
    }
  }

  lemma {:induction false} ValueOfPrint(n: nat)
    ensures AllDigits(Print(n)) && Value(Print(n)) == n
  {
    PrintIsCanonical(n);
    if n < 10 {
      assert Print(n)[..0] == "";
    } else {
      ValueOfPrint(n / 10);
      assert Print(n)[..|Print(n)| - 1] == Print(n / 10);
    }
  }

  lemma {:induction false} LeadingDigitCounts(s: string)
    requires AllDigits(s) && s != "" && s[0] != '0'
    ensures Value(s) >= 1
    ensures |s| >= 2 ==> Value(s) >= 10
  {
    if |s| == 1 {
      assert s[..0] == "";
    } else {
      LeadingDigitCounts(s[..|s| - 1]);
    }
  }

  lemma {:induction false} PrintOfValue(s: string)
    requires IsCanonical(s)
    ensures Print(Value(s)) == s
  {
    if |s| == 1 {
      assert s[..0] == "";
      assert s == [s[0]];
    } else {
      var t := s[..|s| - 1];
      PrintOfValue(t);
      LeadingDigitCounts(t);
      assert s == t + [s[|s| - 1]];
    }
  }

  /** Two canonical strings are the same string exactly when they are the same number. */
  lemma StringsDecideNumbers(s: string, t: string)
    requires IsCanonical(s) && IsCanonical(t)
    ensures s == t <==> Value(s) == Value(t)
  {
    PrintOfValue(s);
    PrintOfValue(t);
  }

  /** `parseUnsignedDecimal`. */
  function Parse(s: string): Option<nat> {
    if IsCanonical(s) then Some(Value(s)) else None
  }

  /** `parseBeaconUint64`. */
  function ParseUint64(s: string): Option<nat> {
    if IsCanonical(s) && Value(s) <= UINT64_MAX then Some(Value(s)) else None
  }

  /** Parsing accepts the printed form of a number and nothing else. */
  lemma ParseInvertsPrint(s: string, n: nat)
    ensures Parse(s) == Some(n) <==> s == Print(n)
    ensures ParseUint64(s) == Some(n) <==> s == Print(n) && n <= UINT64_MAX
  {
    PrintIsCanonical(n);
    ValueOfPrint(n);
    if IsCanonical(s) {
      PrintOfValue(s);
    }
  }

  // ---------------------------------------------------------------- comma-separated lists

  /** `parseBigIntList`: the first entry that is not canonical after trimming refuses the list. */
  function ParseEntries(entries: seq<string>): Option<seq<nat>> {
    if entries == [] then Some([])
    else
      var first := Parse(Trim(entries[0]));
      var rest := ParseEntries(entries[1..]);
      if first.None? || rest.None? then None else Some([first.value] + rest.value)
  }

  function ParseList(s: string): Option<seq<nat>> {
    ParseEntries(Split(s))
  }

  lemma {:induction false} EntriesParseOneByOne(entries: seq<string>, ns: seq<nat>)
    ensures ParseEntries(entries) == Some(ns) <==>
            |entries| == |ns| && forall i :: 0 <= i < |ns| ==> Trim(entries[i]) == Print(ns[i])
  {
    if entries != [] {
      if ns != [] {
        EntriesParseOneByOne(entries[1..], ns[1..]);
        ParseInvertsPrint(Trim(entries[0]), ns[0]);
        assert ns == [ns[0]] + ns[1..];
        if |entries| == |ns| && forall i :: 0 <= i < |ns| ==> Trim(entries[i]) == Print(ns[i]) {
          assert forall i :: 0 <= i < |ns[1..]| ==> Trim(entries[1..][i]) == Print(ns[1..][i]);
        }
        if Trim(entries[0]) == Print(ns[0]) && ParseEntries(entries[1..]) == Some(ns[1..]) {
          forall i | 0 <= i < |ns| ensures Trim(entries[i]) == Print(ns[i]) {
            if i > 0 {
              assert Trim(entries[1..][i - 1]) == Print(ns[1..][i - 1]);
            }
          }
        }
      }
    }
  }

  /** Entry `i` as a person may write it: the number with white space around it. */
  ghost predicate WrittenAs(entry: string, n: nat) {
    exists left, right :: Blank(left) && Blank(right) && entry == left + Print(n) + right
  }

  lemma WrittenEntryTrims(entry: string, n: nat)
    requires WrittenAs(entry, n)
    ensures Trim(entry) == Print(n) && ',' !in entry
  {
    var left, right :| Blank(left) && Blank(right) && entry == left + Print(n) + right;
    PrintIsCanonical(n);
    TrimUndoesPadding(left, Print(n), right);
  }

  /** A non-empty list written with commas, and any white space around the numbers, parses back entry for entry. */
  lemma WrittenListParses(entries: seq<string>, ns: seq<nat>)
    requires entries != [] && |entries| == |ns|
    requires forall i :: 0 <= i < |ns| ==> WrittenAs(entries[i], ns[i])
    ensures ParseList(Join(entries)) == Some(ns)
  {
    forall i | 0 <= i < |ns| ensures Trim(entries[i]) == Print(ns[i]) && ',' !in entries[i] {
      WrittenEntryTrims(entries[i], ns[i]);
    }
    SplitInvertsJoin(entries);
    EntriesParseOneByOne(entries, ns);
  }

  /** A list is accepted exactly when every comma-separated entry, trimmed, is a canonical number. */
  lemma ListAcceptedExactly(s: string, ns: seq<nat>)
    ensures ParseList(s) == Some(ns) <==>
            |Split(s)| == |ns| && forall i :: 0 <= i < |ns| ==> Trim(Split(s)[i]) == Print(ns[i])
  {
    EntriesParseOneByOne(Split(s), ns);
  }
}
