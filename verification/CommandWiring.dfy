/**
 The scanner of test/CommandWiring.ts, which reads the command scripts as text: it splits argument
 lists at their top-level commas, finds whole calls by matching parentheses, and decides whether a
 signing call carries the resolved fields whole and last.
 */
module CommandWiring {
  import opened Text
  import opened Selections

  // ---------------------------------------------------------------- depth

  function Change(c: char): int {
    if c in "([{" then 1 else if c in ")]}" then -1 else 0
  }

  function Depth(s: string): int {
    if s == "" then 0 else Change(s[0]) + Depth(s[1..])
  }

  /** The depth is the number of brackets opened less the number closed. */
  lemma {:induction false} DepthCounts(s: string)
    ensures var m := multiset(s);
            Depth(s) + m[')'] + m[']'] + m['}'] == m['('] + m['['] + m['{']
  {
    if s != "" {
      DepthCounts(s[1..]);
      assert s == [s[0]] + s[1..];
    }
  }

  /** Scanned from that depth on, no comma is at depth zero. */
  predicate NoTopComma(s: string, depth: int) {
    s == "" || (!(s[0] == ',' && depth == 0) && NoTopComma(s[1..], depth + Change(s[0])))
  }

  /** By position: wherever the brackets before it balance the starting depth, there is no comma. */
  lemma {:induction false} NoTopCommaExactly(s: string, depth: int)
    ensures NoTopComma(s, depth) <==> forall i :: 0 <= i < |s| && depth + Depth(s[..i]) == 0 ==> s[i] != ','
  {
    if s != "" {
      var rest, d := s[1..], depth + Change(s[0]);
      NoTopCommaExactly(rest, d);
      assert Depth(s[..0]) == 0;
      forall i | 0 < i <= |s| ensures depth + Depth(s[..i]) == d + Depth(rest[..i - 1]) {
        assert s[..i][1..] == rest[..i - 1];
      }
      if NoTopComma(s, depth) {
        forall i | 0 <= i < |s| && depth + Depth(s[..i]) == 0 ensures s[i] != ',' {
          assert i > 0 ==> rest[i - 1] == s[i];
        }
      }
      if forall i :: 0 <= i < |s| && depth + Depth(s[..i]) == 0 ==> s[i] != ',' {
        forall i | 0 <= i < |rest| && d + Depth(rest[..i]) == 0 ensures rest[i] != ',' {
          assert depth + Depth(s[..i + 1]) == d + Depth(rest[..i]) && s[i + 1] == rest[i];
        }
      }
    }
  }

  // ---------------------------------------------------------------- cutting at the top-level commas

  function Cut(text: string, depth: int): (pieces: seq<string>)
    ensures pieces != []
  {
    if text == "" then [""]
    else
      var rest := Cut(text[1..], depth + Change(text[0]));
      if text[0] == ',' && depth == 0 then [""] + rest
      else [[text[0]] + rest[0]] + rest[1..]
  }

  /** Pieces that can be told apart: no comma at depth zero, and all but the last end there. */
  ghost predicate Separable(pieces: seq<string>, depth: int) {
    && pieces != []
    && NoTopComma(pieces[0], depth)
    && (|pieces| > 1 ==> depth + Depth(pieces[0]) == 0 && Separable(pieces[1..], 0))
  }

  lemma {:induction false} CutFirst(piece: string, rest: string, depth: int)
    requires NoTopComma(piece, depth) && depth + Depth(piece) == 0
    ensures Cut(piece + "," + rest, depth) == [piece] + Cut(rest, 0)
  {
    var text := piece + "," + rest;
    if piece == "" {
      assert text[1..] == rest;
    } else {
      assert text[1..] == piece[1..] + "," + rest;
      CutFirst(piece[1..], rest, depth + Change(piece[0]));
      assert [piece[0]] + piece[1..] == piece;
    }
  }

  lemma {:induction false} CutWhole(piece: string, depth: int)
    requires NoTopComma(piece, depth)
    ensures Cut(piece, depth) == [piece]
  {
    if piece != "" {
      CutWhole(piece[1..], depth + Change(piece[0]));
      assert [piece[0]] + piece[1..] == piece;
    }
  }

  lemma {:induction false} CutInvertsJoin(pieces: seq<string>, depth: int)
    requires Separable(pieces, depth)
    ensures Cut(Join(pieces), depth) == pieces
  {
    if |pieces| == 1 {
      CutWhole(pieces[0], depth);
    } else {
      CutInvertsJoin(pieces[1..], 0);
      CutFirst(pieces[0], Join(pieces[1..]), depth);
    }
  }

  lemma {:induction false} JoinInvertsCut(text: string, depth: int)
    ensures Join(Cut(text, depth)) == text && Separable(Cut(text, depth), depth)
  {
    if text != "" {
      var rest := Cut(text[1..], depth + Change(text[0]));
      JoinInvertsCut(text[1..], depth + Change(text[0]));
      assert text == [text[0]] + text[1..];
      if text[0] == ',' && depth == 0 {
        EmptyInFront(rest);
      } else {
        CharacterInFront(text[0], rest, depth);
      }
    }
  }

  lemma EmptyInFront(rest: seq<string>)
    requires Separable(rest, 0)
    ensures Join([""] + rest) == [','] + Join(rest) && Separable([""] + rest, 0)
  {
    assert ([""] + rest)[1..] == rest;
    assert "" + "," + Join(rest) == [','] + Join(rest);
  }

  lemma CharacterInFront(c: char, rest: seq<string>, depth: int)
    requires Separable(rest, depth + Change(c)) && !(c == ',' && depth == 0)
    ensures var pieces := [[c] + rest[0]] + rest[1..];
            Join(pieces) == [c] + Join(rest) && Separable(pieces, depth)
  {
    var pieces := [[c] + rest[0]] + rest[1..];
    assert pieces[0][1..] == rest[0] && pieces[1..] == rest[1..];
    if |rest| > 1 {
      hide NoTopComma, Depth, Separable;
      assert ([c] + rest[0]) + "," + Join(rest[1..]) == [c] + (rest[0] + "," + Join(rest[1..]));
    }
  }

  /** Cutting is the one way to write a text as separable pieces joined by commas. */
  lemma CutExactly(text: string, pieces: seq<string>)
    ensures pieces == Cut(text, 0) <==> Separable(pieces, 0) && Join(pieces) == text
  {
    JoinInvertsCut(text, 0);
    if Separable(pieces, 0) && Join(pieces) == text {
      CutInvertsJoin(pieces, 0);
    }
  }

  function TrimAll(pieces: seq<string>): (r: seq<string>)
    ensures |r| == |pieces|
  {
    seq(|pieces|, i requires 0 <= i < |pieces| => Trim(pieces[i]))
  }

  function NonEmpty(parts: seq<string>): seq<string> {
    if parts == [] then []
    else (if parts[0] == "" then [] else [parts[0]]) + NonEmpty(parts[1..])
  }

  /** Exactly the parts that are not empty are kept, in order: a trailing comma adds none. */
  lemma {:induction false} NonEmptyExactly(parts: seq<string>)
    ensures InOrder(NonEmpty(parts), map i | 0 <= i < |parts| && |parts[i]| > 0 :: parts[i])
    decreases |parts|
  {
    var byPlace := map i | 0 <= i < |parts| && |parts[i]| > 0 :: parts[i];
    if parts == [] {
      NothingInOrder(byPlace);
    } else {
      var n := |parts| - 1;
      var rest, part := parts[..n], parts[n];
      var earlier := map i | 0 <= i < |rest| && |rest[i]| > 0 :: rest[i];
      NonEmptyExactly(rest);
      NonEmptyAppend(rest, part);
      assert parts == rest + [part];
      assert byPlace == if |part| > 0 then earlier[n := part] else earlier;
      if |part| > 0 {
        InOrderNext(NonEmpty(rest), earlier, n, part);
      } else {
        assert NonEmpty(rest) + [] == NonEmpty(rest);
      }
    }
  }

  lemma {:induction false} NonEmptyAppend(parts: seq<string>, part: string)
    ensures NonEmpty(parts + [part]) == NonEmpty(parts) + if part == "" then [] else [part]
  {
    if parts == [] {
      assert [part][1..] == [];
    } else {
      assert (parts + [part])[1..] == parts[1..] + [part];
      NonEmptyAppend(parts[1..], part);
    }
  }

  /** The pieces between top-level commas, trimmed, without those that are then empty. */
  method TopLevelParts(text: string) returns (parts: seq<string>)
    ensures parts == NonEmpty(TrimAll(Cut(text, 0)))
  {
    var all: seq<string> := [];
    var depth := 0;
    var current := "";
    ghost var cut: seq<string> := [];
    hide Cut, Trim, Change, TrimAll, Resumed;
    assert TrimAll([]) == [];
    assert text[0..] == text;
    ResumeNothing(Cut(text, 0));
    for i := 0 to |text|
      invariant all == TrimAll(cut)
      invariant Cut(text, 0) == Resumed(cut, current, Cut(text[i..], depth))
    {
      var character := text[i];
      CutNext(text, i, depth);
      if character in "([{" {
        depth := depth + 1;
      }
      if character in ")]}" {
        depth := depth - 1;
      }
      if character == ',' && depth == 0 {
        TrimAllAppend(cut, current);
        all := all + [Trim(current)];
        ResumeAfterComma(cut, current, Cut(text[i + 1..], depth));
        cut := cut + [current];
        current := "";
      } else {
        ResumeAfterCharacter(cut, current, character, Cut(text[i + 1..], depth));
        current := current + [character];
      }
    }
    CutEnd(text, cut, current, depth);
    TrimAllAppend(cut, current);
    all := all + [Trim(current)];
    parts := NonEmpty(all);
  }

  lemma TrimAllAppend(cut: seq<string>, piece: string)
    ensures TrimAll(cut + [piece]) == TrimAll(cut) + [Trim(piece)]
  {
  }

  lemma CutNext(text: string, i: nat, depth: int)
    requires i < |text|
    ensures var next := depth + (if text[i] in "([{" then 1 else 0) - if text[i] in ")]}" then 1 else 0;
            var rest := Cut(text[i + 1..], next);
            Cut(text[i..], depth) ==
            if text[i] == ',' && depth == 0 then [""] + rest else [[text[i]] + rest[0]] + rest[1..]
  {
    assert text[i..][0] == text[i] && text[i..][1..] == text[i + 1..];
  }

  lemma CutEnd(text: string, cut: seq<string>, current: string, depth: int)
    ensures Resumed(cut, current, Cut(text[|text|..], depth)) == cut + [current]
  {
    assert text[|text|..] == "" && current + "" == current;
  }

  lemma ResumeNothing(ahead: seq<string>)
    requires ahead != []
    ensures Resumed([], "", ahead) == ahead
  {
    assert "" + ahead[0] == ahead[0];
  }

  /** The pieces cut off so far, then the current one continued by the first of those ahead. */
  ghost function Resumed(cut: seq<string>, current: string, ahead: seq<string>): seq<string>
    requires ahead != []
  {
    cut + [current + ahead[0]] + ahead[1..]
  }

  lemma ResumeAfterComma(cut: seq<string>, current: string, rest: seq<string>)
    requires rest != []
    ensures Resumed(cut, current, [""] + rest) == Resumed(cut + [current], "", rest)
  {
    assert current + "" == current && "" + rest[0] == rest[0];
    assert ([""] + rest)[1..] == [rest[0]] + rest[1..];
  }

  lemma ResumeAfterCharacter(cut: seq<string>, current: string, c: char, rest: seq<string>)
    requires rest != []
    ensures Resumed(cut, current, [[c] + rest[0]] + rest[1..]) == Resumed(cut, current + [c], rest)
  {
    assert current + ([c] + rest[0]) == (current + [c]) + rest[0];
  }

  /** A part as an argument list has it: something, with nothing to trim, and no comma to cut at. */
  ghost predicate Proper(part: string) {
    part != "" && Trimmed(part) && Depth(part) == 0 && NoTopComma(part, 0)
  }

  lemma {:induction false} ProperIsSeparable(parts: seq<string>)
    requires parts != [] && forall i :: 0 <= i < |parts| ==> Proper(parts[i])
    ensures Separable(parts, 0)
  {
    if |parts| > 1 {
      ProperIsSeparable(parts[1..]);
    }
  }

  lemma TrimmedStays(part: string)
    requires Trimmed(part)
    ensures Trim(part) == part
  {
  }

  lemma {:induction false} NonEmptyStays(parts: seq<string>)
    requires forall i :: 0 <= i < |parts| ==> parts[i] != ""
    ensures NonEmpty(parts) == parts
  {
    if parts != [] {
      NonEmptyStays(parts[1..]);
    }
  }

  /** Splitting pieces joined by commas gives back the pieces, trimmed, without the empty ones. */
  lemma PartsOfPieces(pieces: seq<string>)
    requires Separable(pieces, 0)
    ensures NonEmpty(TrimAll(Cut(Join(pieces), 0))) == NonEmpty(TrimAll(pieces))
  {
    CutInvertsJoin(pieces, 0);
  }

  /** Splitting an argument list gives back its arguments. */
  lemma PartsOfJoin(parts: seq<string>)
    requires parts != [] && forall i :: 0 <= i < |parts| ==> Proper(parts[i])
    ensures NonEmpty(TrimAll(Cut(Join(parts), 0))) == parts
  {
    ProperIsSeparable(parts);
    PartsOfPieces(parts);
    forall i | 0 <= i < |parts| ensures TrimAll(parts)[i] == parts[i] {
      TrimmedStays(parts[i]);
    }
    assert TrimAll(parts) == parts;
    NonEmptyStays(parts);
  }

  // ---------------------------------------------------------------- whole calls

  /** A regular-expression match: where it starts and how long it is. */
  datatype Match = Match(index: nat, length: nat)

  function ParenChange(c: char): int {
    if c == '(' then 1 else if c == ')' then -1 else 0
  }

  function ParenDepth(s: string): int {
    if s == "" then 0 else ParenDepth(s[..|s| - 1]) + ParenChange(s[|s| - 1])
  }

  /** Of the round brackets alone. */
  lemma {:induction false} ParenDepthCounts(s: string)
    ensures ParenDepth(s) + multiset(s)[')'] == multiset(s)['(']
  {
    if s != "" {
      ParenDepthCounts(s[..|s| - 1]);
      assert s == s[..|s| - 1] + [s[|s| - 1]];
    }
  }

  /** The depth after the character at i, counted from start. */
  function Through(source: string, start: nat, i: int): int
    requires start <= i < |source|
  {
    ParenDepth(source[start..i + 1])
  }

  /** Ends at i and not before: the shortest slice from start whose parentheses come back to zero. */
  ghost predicate ClosesAt(source: string, start: nat, i: int) {
    && start <= i < |source|
    && Through(source, start, i) == 0
    && forall j :: start <= j < i ==> Through(source, start, j) != 0
  }

  /** The matches have the form the caller promises: they end at an opening parenthesis. */
  predicate EndsAtParenthesis(source: string, m: Match) {
    m.length >= 1 && m.index + m.length <= |source| && source[m.index + m.length - 1] == '('
  }

  ghost function CallAt(source: string, m: Match): (calls: seq<string>)
    requires EndsAtParenthesis(source, m)
  {
    var start := m.index + m.length - 1;
    if exists i :: ClosesAt(source, start, i) then
      var i :| ClosesAt(source, start, i);
      [source[m.index..i + 1]]
    else []
  }

  ghost function Calls(source: string, matches: seq<Match>): seq<string>
    requires forall k :: 0 <= k < |matches| ==> EndsAtParenthesis(source, matches[k])
  {
    if matches == [] then []
    else Calls(source, matches[..|matches| - 1]) + CallAt(source, matches[|matches| - 1])
  }

  /** The match's parenthesis is closed somewhere. */
  ghost predicate Closes(source: string, m: Match)
    requires EndsAtParenthesis(source, m)
  {
    var start := m.index + m.length - 1;
    exists i :: ClosesAt(source, start, i)
  }

  /** From a match on, the text up to and including the parenthesis that closes it. */
  ghost function Whole(source: string, m: Match): string
    requires EndsAtParenthesis(source, m) && Closes(source, m)
  {
    var start := m.index + m.length - 1;
    var i :| ClosesAt(source, start, i);
    source[m.index..i + 1]
  }

  lemma WholeEndsThere(source: string, m: Match, i: nat)
    requires EndsAtParenthesis(source, m) && ClosesAt(source, m.index + m.length - 1, i)
    ensures Closes(source, m) && Whole(source, m) == source[m.index..i + 1]
  {
    var start := m.index + m.length - 1;
    forall j | ClosesAt(source, start, j) ensures j == i {
      CloseIsEarliest(source, start, i, j);
      CloseIsEarliest(source, start, j, i);
    }
  }

  ghost function WholeCalls(source: string, matches: seq<Match>): map<int, string>
    requires forall k :: 0 <= k < |matches| ==> EndsAtParenthesis(source, matches[k])
  {
    map k | 0 <= k < |matches| && Closes(source, matches[k]) :: Whole(source, matches[k])
  }

  /** One call for each match whose parenthesis is closed, in the order of the matches. */
  lemma {:induction false} CallsInOrder(source: string, matches: seq<Match>)
    requires forall k :: 0 <= k < |matches| ==> EndsAtParenthesis(source, matches[k])
    ensures InOrder(Calls(source, matches), WholeCalls(source, matches))
  {
    if matches == [] {
      NothingInOrder(WholeCalls(source, matches));
    } else {
      var n := |matches| - 1;
      CallsInOrder(source, matches[..n]);
      WholeCallsNext(source, matches);
      LastCall(source, matches);
      hide Calls, WholeCalls, InOrder, Before, Whole, Closes, CallAt;
      if Closes(source, matches[n]) {
        InOrderNext(Calls(source, matches[..n]), WholeCalls(source, matches[..n]), n, Whole(source, matches[n]));
      } else {
        assert Calls(source, matches[..n]) + [] == Calls(source, matches[..n]);
      }
    }
  }

  lemma LastCall(source: string, matches: seq<Match>)
    requires matches != [] && forall k :: 0 <= k < |matches| ==> EndsAtParenthesis(source, matches[k])
    ensures var n := |matches| - 1;
            Calls(source, matches) == Calls(source, matches[..n])
            + if Closes(source, matches[n]) then [Whole(source, matches[n])] else []
  {
    WholeCallAt(source, matches[|matches| - 1]);
    hide CallAt, Whole, Closes;
  }

  lemma WholeCallAt(source: string, m: Match)
    requires EndsAtParenthesis(source, m)
    ensures CallAt(source, m) == if Closes(source, m) then [Whole(source, m)] else []
  {
    var start := m.index + m.length - 1;
    if Closes(source, m) {
      var i :| ClosesAt(source, start, i);
      hide ClosesAt, CallAt, Whole;
      CallAtExactly(source, m, true, i);
      WholeEndsThere(source, m, i);
    }
  }

  lemma WholeCallsNext(source: string, matches: seq<Match>)
    requires matches != [] && forall k :: 0 <= k < |matches| ==> EndsAtParenthesis(source, matches[k])
    ensures var n := |matches| - 1;
            var before := WholeCalls(source, matches[..n]);
            && Before(before, n)
            && WholeCalls(source, matches)
               == if Closes(source, matches[n]) then before[n := Whole(source, matches[n])] else before
  {
    hide Closes, Whole;
    assert forall k :: 0 <= k < |matches| - 1 ==> matches[..|matches| - 1][k] == matches[k];
  }

  method CallsMatching(source: string, matches: seq<Match>) returns (calls: seq<string>)
    requires forall k :: 0 <= k < |matches| ==> EndsAtParenthesis(source, matches[k])
    ensures calls == Calls(source, matches)
  {
    calls := [];
    for k := 0 to |matches|
      invariant calls == Calls(source, matches[..k])
    {
      var m := matches[k];
      var start := m.index + m.length - 1;
      var found, i := FindClose(source, start);
      CallAtExactly(source, m, found, i);
      CallsNext(source, matches, k);
      hide CallAt, ClosesAt, Calls;
      if found {
        calls := calls + [source[m.index..i + 1]];
      } else {
        assert calls + [] == calls;
      }
    }
    assert matches[..|matches|] == matches;
  }

  lemma CallsNext(source: string, matches: seq<Match>, k: nat)
    requires k < |matches| && forall j :: 0 <= j < |matches| ==> EndsAtParenthesis(source, matches[j])
    ensures Calls(source, matches[..k + 1]) == Calls(source, matches[..k]) + CallAt(source, matches[k])
  {
    assert matches[..k + 1][..k] == matches[..k] && matches[..k + 1][k] == matches[k];
    hide CallAt;
  }

  /** The scan from an opening parenthesis. */
  method FindClose(source: string, start: nat) returns (found: bool, i: nat)
    requires start <= |source|
    ensures found ==> ClosesAt(source, start, i)
    ensures !found ==> forall j :: !ClosesAt(source, start, j)
  {
    var depth := 0;
    i := start;
    while i < |source|
      invariant start <= i <= |source|
      invariant depth == ParenDepth(source[start..i])
      invariant forall j :: start <= j < i ==> Through(source, start, j) != 0
    {
      assert source[start..i + 1][..i - start] == source[start..i];
      if source[i] == '(' {
        depth := depth + 1;
      }
      if source[i] == ')' {
        depth := depth - 1;
      }
      if depth == 0 {
        return true, i;
      }
      i := i + 1;
    }
    return false, i;
  }

  lemma CloseIsEarliest(source: string, start: nat, i: int, j: int)
    requires ClosesAt(source, start, i) && ClosesAt(source, start, j)
    ensures i <= j
  {
  }

  lemma CallAtExactly(source: string, m: Match, found: bool, i: nat)
    requires EndsAtParenthesis(source, m)
    requires var start := m.index + m.length - 1;
             if found then ClosesAt(source, start, i) else forall j :: !ClosesAt(source, start, j)
    ensures found ==> i < |source|
    ensures CallAt(source, m) == if found then [source[m.index..i + 1]] else []
  {
    var start := m.index + m.length - 1;
    if found {
      forall j | ClosesAt(source, start, j) ensures j == i {
        CloseIsEarliest(source, start, i, j);
        CloseIsEarliest(source, start, j, i);
      }
    }
  }

  lemma {:induction false} DepthStaysPositive(source: string, start: nat, i: int, j: int)
    requires ClosesAt(source, start, i) && source[start] == '(' && start <= j < i
    ensures Through(source, start, j) >= 1
    decreases j
  {
    ThroughNext(source, start, j);
    if j > start {
      DepthStaysPositive(source, start, i, j - 1);
    }
  }

  lemma ThroughNext(source: string, start: nat, j: int)
    requires start <= j < |source|
    ensures Through(source, start, j) ==
            (if j == start then 0 else Through(source, start, j - 1)) + ParenChange(source[j])
  {
    var slice, before := source[start..j + 1], source[start..j];
    assert |slice| == j + 1 - start && slice[|slice| - 1] == source[j];
    assert slice[..|slice| - 1] == before;
    if j == start {
      assert before == "" && ParenDepth(before) == 0;
    } else {
      assert before == source[start..(j - 1) + 1];
    }
  }

  /** A call found runs to its matching parenthesis: up to there the depth stays positive. */
  lemma FoundCallIsMatched(source: string, start: nat, i: int)
    requires ClosesAt(source, start, i) && source[start] == '('
    ensures i > start && source[i] == ')'
    ensures forall j :: start <= j < i ==> Through(source, start, j) >= 1
  {
    forall j | start <= j < i ensures Through(source, start, j) >= 1 {
      DepthStaysPositive(source, start, i, j);
    }
    ThroughNext(source, start, i);
  }

  // ---------------------------------------------------------------- carrying the fields

  predicate StartsWith(s: string, prefix: string) {
    prefix <= s
  }

  /**
   The expression's optional tail makes it a test of how the element begins, so a longer name counts
   as well; `gasPrice`, listed in it, already begins with `gas`.
   */
  predicate WritesFeeKey(element: string) {
    || StartsWith(element, "gas")
    || StartsWith(element, "gasPrice")
    || StartsWith(element, "maxFeePerGas")
    || StartsWith(element, "maxPriorityFeePerGas")
    || StartsWith(element, "type")
  }

  /** What follows the first opening parenthesis, or everything if there is none. */
  function AfterParenthesis(call: string): string {
    if '(' !in call then call else if call[0] == '(' then call[1..] else AfterParenthesis(call[1..])
  }

  function DropLast(s: string): string {
    if s == "" then "" else s[..|s| - 1]
  }

  ghost predicate FieldsLast(elements: seq<string>) {
    && elements != []
    && elements[|elements| - 1] == "...fields"
    && forall i :: 0 <= i < |elements| ==> !BeginsWithFeeKey(elements[i])
  }

  ghost predicate BeginsWithFeeKey(element: string) {
    "gas" <= element || "maxFeePerGas" <= element || "maxPriorityFeePerGas" <= element || "type" <= element
  }

  lemma WritesFeeKeyExactly(element: string)
    ensures WritesFeeKey(element) <==> BeginsWithFeeKey(element)
  {
  }

  ghost predicate Carries(call: string) {
    var arguments := NonEmpty(TrimAll(Cut(DropLast(AfterParenthesis(call)), 0)));
    && arguments != []
    && var last := arguments[|arguments| - 1];
       || last == "fields"
       || (|last| >= 2 && last[0] == '{' && last[|last| - 1] == '}'
           && FieldsLast(NonEmpty(TrimAll(Cut(last[1..|last| - 1], 0)))))
  }

  method CarriesFieldsLast(call: string) returns (carries: bool)
    ensures carries <==> Carries(call)
  {
    hide Cut, Trim, TrimAll, NonEmpty, AfterParenthesis, DropLast, WritesFeeKey, BeginsWithFeeKey;
    var arguments := TopLevelParts(DropLast(AfterParenthesis(call)));
    if arguments == [] {
      return false;
    }
    var last := arguments[|arguments| - 1];
    if last == "fields" {
      return true;
    }
    if last == "" || last[0] != '{' || last[|last| - 1] != '}' {
      return false;
    }
    assert |last| >= 2;
    var elements := TopLevelParts(last[1..|last| - 1]);
    if elements == [] || elements[|elements| - 1] != "...fields" {
      return false;
    }
    for i := 0 to |elements|
      invariant forall k :: 0 <= k < i ==> !BeginsWithFeeKey(elements[k])
    {
      WritesFeeKeyExactly(elements[i]);
      if WritesFeeKey(elements[i]) {
        return false;
      }
    }
    return true;
  }

  lemma {:induction false} ArgumentsOf(name: string, arguments: string)
    requires '(' !in name
    ensures DropLast(AfterParenthesis(name + "(" + arguments + ")")) == arguments
  {
    var call := name + "(" + arguments + ")";
    assert call[|name|] == '(';
    if name == "" {
      assert call[1..] == arguments + ")";
    } else {
      assert call[1..] == name[1..] + "(" + arguments + ")";
      ArgumentsOf(name[1..], arguments);
    }
  }

  /**
   A call whose last argument is an object literal, however it is spaced and whether or not a comma
   trails: its elements decide, and without elements it does not carry the fields.
   */
  lemma CarriesLiteralExactly(name: string, arguments: seq<string>, elements: seq<string>)
    requires '(' !in name && Separable(arguments, 0) && Separable(elements, 0)
    requires var written := NonEmpty(TrimAll(arguments));
             written != [] && written[|written| - 1] == "{" + Join(elements) + "}"
    ensures Carries(name + "(" + Join(arguments) + ")") <==> FieldsLast(NonEmpty(TrimAll(elements)))
  {
    ArgumentsOf(name, Join(arguments));
    PartsOfPieces(arguments);
    PartsOfPieces(elements);
    Braced(Join(elements));
    hide Cut, Trim, TrimAll, NonEmpty, AfterParenthesis, DropLast, FieldsLast, NoTopComma, Separable, Join;
  }

  lemma Braced(inner: string)
    ensures var s := "{" + inner + "}";
            |s| >= 2 && s[0] == '{' && s[|s| - 1] == '}' && s[1..|s| - 1] == inner && s != "fields"
  {
    var s := "{" + inner + "}";
    assert s[0] == '{' && "fields"[0] == 'f';
  }

  /** Any other call, one without arguments included, carries the fields exactly when they are its last argument. */
  lemma CarriesArgumentExactly(name: string, arguments: seq<string>)
    requires '(' !in name && Separable(arguments, 0)
    requires var written := NonEmpty(TrimAll(arguments));
             written != [] ==> !BracedText(written[|written| - 1])
    ensures var written := NonEmpty(TrimAll(arguments));
            Carries(name + "(" + Join(arguments) + ")") <==> written != [] && written[|written| - 1] == "fields"
  {
    ArgumentsOf(name, Join(arguments));
    PartsOfPieces(arguments);
    var written := NonEmpty(TrimAll(arguments));
    if written != [] {
      BracedExactly(written[|written| - 1]);
    }
    hide Cut, Trim, TrimAll, NonEmpty, AfterParenthesis, DropLast, FieldsLast, NoTopComma, Separable, Join;
    hide BracedText;
  }

  lemma BracedExactly(s: string)
    ensures BracedText(s) <==> |s| >= 2 && s[0] == '{' && s[|s| - 1] == '}'
  {
    if |s| >= 2 && s[0] == '{' && s[|s| - 1] == '}' {
      assert s == "{" + s[1..|s| - 1] + "}";
    }
  }

  /** A text of at least two characters, from an opening to a closing brace. */
  ghost predicate BracedText(s: string) {
    exists inner :: s == "{" + inner + "}"
  }
}
