/**
 The lines a failed command prints: `describeFatalError` and what it calls, in scripts/lib/common.ts.

 Errors are objects of a heap, linked by `cause`, so that a chain may be cyclic.
 */
module FatalError {
  import opened Options
  import opened Text
  import opened Selections

  type Ref = nat

  datatype Thrown = Undefined | Null | Primitive(text: string) | Object(ref: Ref)

  datatype CustomError = CustomError(errorName: Option<string>, args: Option<seq<string>>)

  /** The fields that are read; None stands for a field that is missing or not a string. */
  datatype ErrorObject = ErrorObject(
    shortMessage: Option<string>, message: Option<string>,
    data: Option<CustomError>, reason: Option<string>, signature: Option<string>,
    functionName: Option<string>, contractAddress: Option<string>, sender: Option<string>,
    details: Option<string>, cause: Thrown, text: string)

  type Heap = map<Ref, ErrorObject>

  const MAX_ERROR_CAUSE_DEPTH: nat := 8

  ghost predicate InHeap(heap: Heap, v: Thrown) {
    v.Object? ==> v.ref in heap
  }

  ghost predicate Closed(heap: Heap) {
    forall r :: r in heap ==> InHeap(heap, heap[r].cause)
  }

  /** `String(v)`. */
  function Shown(heap: Heap, v: Thrown): string
    requires InHeap(heap, v)
  {
    match v
    case Undefined => "undefined"
    case Null => "null"
    case Primitive(text) => text
    case Object(ref) => heap[ref].text
  }

  // ---------------------------------------------------------------- one error

  predicate Given(s: Option<string>) {
    s.Some? && s.value != ""
  }

  function JoinArguments(args: seq<string>): string {
    if args == [] then "" else if |args| == 1 then args[0] else args[0] + ", " + JoinArguments(args[1..])
  }

  function DescribeCustomError(data: Option<CustomError>): Option<string> {
    if data.None? || !Given(data.value.errorName) then None
    else
      var name := data.value.errorName.value;
      Some(name + "(" + (if data.value.args.None? then "" else JoinArguments(data.value.args.value)) + ")")
  }

  function MessageLines(e: ErrorObject): seq<string> {
    if Given(e.shortMessage) then Split(e.shortMessage.value, '\n')
    else if Given(e.message) then Split(e.message.value, '\n')
    else []
  }

  function Labelled(tag: string, s: Option<string>): seq<string> {
    if Given(s) then [tag + s.value] else []
  }

  function CallLines(e: ErrorObject): seq<string> {
    if !Given(e.functionName) then []
    else
      var address := if e.contractAddress.Some? then e.contractAddress.value else "<unknown>";
      ["Contract call: " + e.functionName.value + "() at " + address] + Labelled("Sender: ", e.sender)
  }

  function NotBlank(lines: seq<string>): seq<string> {
    if lines == [] then []
    else
      NotBlank(lines[..|lines| - 1])
      + if Trim(lines[|lines| - 1]) == "" then [] else [lines[|lines| - 1]]
  }

  function Described(heap: Heap, v: Thrown): seq<string>
    requires InHeap(heap, v)
  {
    if !v.Object? then [Shown(heap, v)]
    else
      NotBlank(Undropped(heap[v.ref]))
  }

  method DescribeOneError(heap: Heap, v: Thrown) returns (lines: seq<string>)
    requires InHeap(heap, v)
    ensures lines == Described(heap, v)
  {
    hide NotBlank, MessageLines, DescribeCustomError;
    if !v.Object? {
      return [Shown(heap, v)];
    }
    var described := heap[v.ref];
    lines := MessageLines(described);
    var customError := DescribeCustomError(described.data);
    ghost var spec := MessageLines(described)
                      + if customError.Some? then ["Contract error: " + customError.value] else [];
    if customError.Some? {
      lines := lines + ["Contract error: " + customError.value];
    }
    assert lines == spec;
    if Given(described.reason) {
      lines := lines + ["Revert reason: " + described.reason.value];
    }
    assert lines == spec + Labelled("Revert reason: ", described.reason);
    spec := lines;
    if Given(described.signature) {
      lines := lines + ["Revert signature: " + described.signature.value];
    }
    assert lines == spec + Labelled("Revert signature: ", described.signature);
    spec := lines;
    if Given(described.functionName) {
      var address := if described.contractAddress.Some? then described.contractAddress.value else "<unknown>";
      lines := lines + ["Contract call: " + described.functionName.value + "() at " + address];
      if Given(described.sender) {
        lines := lines + ["Sender: " + described.sender.value];
      }
    }
    assert lines == spec + CallLines(described);
    spec := lines;
    if Given(described.details) {
      lines := lines + ["Details: " + described.details.value];
    }
    assert lines == spec + Labelled("Details: ", described.details);
    lines := NotBlank(lines);
  }

  /** A field that is there and not empty. */
  ghost predicate Says(field: Option<string>) {
    field.Some? && |field.value| > 0
  }

  /** The arguments of a call as source text has them. */
  ghost function ArgumentList(args: seq<string>): string {
    if |args| == 0 then "" else if |args| == 1 then args[0]
    else ArgumentList(args[..|args| - 1]) + ", " + args[|args| - 1]
  }

  lemma {:induction false} JoinArgumentsExactly(args: seq<string>)
    ensures JoinArguments(args) == ArgumentList(args)
    decreases |args|
  {
    if |args| > 1 {
      JoinArgumentsExactly(args[1..]);
      ArgumentListFirst(args);
    }
  }

  lemma {:induction false} ArgumentListFirst(args: seq<string>)
    requires |args| > 1
    ensures ArgumentList(args) == args[0] + ", " + ArgumentList(args[1..])
    decreases |args|
  {
    var n := |args| - 1;
    assert args[1..][..n - 1] == args[..n][1..];
    if n > 1 {
      ArgumentListFirst(args[..n]);
      FirstRegroups(args[0], ", ", ArgumentList(args[..n][1..]), args[n]);
    } else {
      assert args[..1] == [args[0]] && args[1..] == [args[1]];
    }
  }

  lemma FirstRegroups(first: string, comma: string, middle: string, last: string)
    ensures (first + comma + middle) + comma + last == first + comma + (middle + comma + last)
  {
  }

  /** The lines each field contributes; the number is the field's place in the description. */
  ghost predicate Contributes(e: ErrorObject, field: int, line: string) {
    match field
    case 0 =>
      if Says(e.shortMessage) then line in Split(e.shortMessage.value, '\n')
      else Says(e.message) && line in Split(e.message.value, '\n')
    case 1 =>
      && e.data.Some? && Says(e.data.value.errorName)
      && line == "Contract error: " + (e.data.value.errorName.value + "("
                 + (if e.data.value.args.None? then "" else ArgumentList(e.data.value.args.value)) + ")")
    case 2 => Says(e.reason) && line == "Revert reason: " + e.reason.value
    case 3 => Says(e.signature) && line == "Revert signature: " + e.signature.value
    case 4 =>
      && Says(e.functionName)
      && line == "Contract call: " + e.functionName.value + "() at "
                 + if e.contractAddress.Some? then e.contractAddress.value else "<unknown>"
    case 5 => Says(e.functionName) && Says(e.sender) && line == "Sender: " + e.sender.value
    case 6 => Says(e.details) && line == "Details: " + e.details.value
    case _ => false
  }

  /** Line by line, the field that contributes it, from low to high. */
  ghost predicate ByField(e: ErrorObject, low: int, high: int, fields: seq<int>, lines: seq<string>) {
    && |fields| == |lines|
    && (forall i :: 0 <= i < |fields| ==> low <= fields[i] <= high && Contributes(e, fields[i], lines[i]))
    && forall i, j :: 0 <= i < j < |fields| ==> fields[i] <= fields[j]
  }

  lemma ByFieldConcat(e: ErrorObject, low: int, middle: int, next: int, high: int,
                      f: seq<int>, a: seq<string>, g: seq<int>, b: seq<string>)
    requires ByField(e, low, middle, f, a) && ByField(e, next, high, g, b) && low <= middle <= next <= high
    ensures ByField(e, low, high, f + g, a + b)
  {
    hide Contributes;
  }

  lemma OneField(e: ErrorObject, field: int, lines: seq<string>)
    requires |lines| <= 1 && forall i :: 0 <= i < |lines| ==> Contributes(e, field, lines[i])
    ensures ByField(e, field, field, seq(|lines|, i => field), lines)
  {
    hide Contributes;
  }

  lemma MessageFields(e: ErrorObject)
    ensures ByField(e, 0, 0, seq(|MessageLines(e)|, i => 0), MessageLines(e))
  {
  }

  lemma {:induction false} DropBlankFields(e: ErrorObject, low: int, high: int, fields: seq<int>, lines: seq<string>)
    returns (kept: seq<int>)
    requires ByField(e, low, high, fields, lines)
    ensures ByField(e, low, high, kept, NotBlank(lines))
    ensures forall x :: x in NotBlank(lines) <==> x in lines && !Blank(x)
    decreases |lines|
  {
    hide Contributes, Trim, Blank;
    if lines == [] {
      kept := [];
    } else {
      var n := |lines| - 1;
      kept := DropBlankFields(e, low, fields[n], fields[..n], lines[..n]);
      assert lines == lines[..n] + [lines[n]];
      BlankExactly(lines[n]);
      if Trim(lines[n]) != "" {
        kept := kept + [fields[n]];
      }
    }
  }

  /** The lines of one error before the blank ones go. */
  function Undropped(e: ErrorObject): seq<string> {
    var custom := DescribeCustomError(e.data);
    MessageLines(e)
    + (if custom.Some? then ["Contract error: " + custom.value] else [])
    + Labelled("Revert reason: ", e.reason)
    + Labelled("Revert signature: ", e.signature)
    + CallLines(e)
    + Labelled("Details: ", e.details)
  }

  lemma CallFields(e: ErrorObject) returns (fields: seq<int>)
    ensures ByField(e, 4, 5, fields, CallLines(e))
  {
    if !Given(e.functionName) {
      fields := [];
    } else if Given(e.sender) {
      fields := [4, 5];
    } else {
      fields := [4];
    }
  }

  lemma UndroppedByField(e: ErrorObject) returns (fields: seq<int>)
    ensures ByField(e, 0, 6, fields, Undropped(e))
  {
    var custom := DescribeCustomError(e.data);
    var second := if custom.Some? then ["Contract error: " + custom.value] else [];
    if custom.Some? && e.data.value.args.Some? {
      JoinArgumentsExactly(e.data.value.args.value);
    }
    var third, fourth := Labelled("Revert reason: ", e.reason), Labelled("Revert signature: ", e.signature);
    var last := Labelled("Details: ", e.details);
    MessageFields(e);
    OneField(e, 1, second);
    OneField(e, 2, third);
    OneField(e, 3, fourth);
    var call := CallFields(e);
    OneField(e, 6, last);
    hide ByField, MessageLines, CallLines, Labelled;
    var f0, f1 := seq(|MessageLines(e)|, i => 0), seq(|second|, i => 1);
    var f2, f3 := seq(|third|, i => 2), seq(|fourth|, i => 3);
    ByFieldConcat(e, 0, 0, 1, 1, f0, MessageLines(e), f1, second);
    ByFieldConcat(e, 0, 1, 2, 2, f0 + f1, MessageLines(e) + second, f2, third);
    ByFieldConcat(e, 0, 2, 3, 3, f0 + f1 + f2, MessageLines(e) + second + third, f3, fourth);
    ByFieldConcat(e, 0, 3, 4, 5, f0 + f1 + f2 + f3, MessageLines(e) + second + third + fourth, call, CallLines(e));
    fields := f0 + f1 + f2 + f3 + call + seq(|last|, i => 6);
    ByFieldConcat(e, 0, 5, 6, 6, f0 + f1 + f2 + f3 + call, MessageLines(e) + second + third + fourth + CallLines(e),
                  seq(|last|, i => 6), last);
  }

  lemma NoFieldMissing(e: ErrorObject, field: int, line: string)
    requires Contributes(e, field, line)
    ensures line in Undropped(e)
  {
    if field == 1 && e.data.value.args.Some? {
      JoinArgumentsExactly(e.data.value.args.value);
    }
  }

  /**
   The description of an object: message, decoded error, reason, signature, call, sender and details
   in that order, each with its own label, every line of theirs that is not blank and nothing else.
   */
  lemma DescribedByField(heap: Heap, ref: Ref) returns (fields: seq<int>)
    requires ref in heap
    ensures var e, lines := heap[ref], Described(heap, Object(ref));
            && ByField(e, 0, 6, fields, lines)
            && (forall x :: x in lines ==> !Blank(x))
            && forall field, line :: Contributes(e, field, line) && !Blank(line) ==> line in lines
  {
    var e := heap[ref];
    var all := UndroppedByField(e);
    fields := DropBlankFields(e, 0, 6, all, Undropped(e));
    forall field, line | Contributes(e, field, line) && !Blank(line) ensures line in Described(heap, Object(ref)) {
      NoFieldMissing(e, field, line);
    }
  }

  ghost function LinesAt(lines: seq<string>): map<int, string> {
    map i | 0 <= i < |lines| && !Blank(lines[i]) :: lines[i]
  }

  /** Of any lines exactly the blank ones are dropped, and the order stays. */
  lemma {:induction false} NotBlankExactly(lines: seq<string>)
    ensures InOrder(NotBlank(lines), LinesAt(lines))
  {
    if lines == [] {
      NothingInOrder(LinesAt(lines));
    } else {
      var n := |lines| - 1;
      NotBlankExactly(lines[..n]);
      BlankExactly(lines[n]);
      LinesAtNext(lines);
      hide LinesAt, InOrder, Before, Trim, Blank;
      if Blank(lines[n]) {
        assert NotBlank(lines[..n]) + [] == NotBlank(lines[..n]);
      } else {
        InOrderNext(NotBlank(lines[..n]), LinesAt(lines[..n]), n, lines[n]);
      }
    }
  }

  lemma LinesAtNext(lines: seq<string>)
    requires lines != []
    ensures var n := |lines| - 1;
            var before := LinesAt(lines[..n]);
            Before(before, n) && LinesAt(lines) == if Blank(lines[n]) then before else before[n := lines[n]]
  {
    hide Blank;
    assert forall i :: 0 <= i < |lines| - 1 ==> lines[..|lines| - 1][i] == lines[i];
  }

  lemma {:induction false} NotBlankConcat(a: seq<string>, b: seq<string>)
    ensures NotBlank(a + b) == NotBlank(a) + NotBlank(b)
  {
    hide Trim;
    if b == [] {
      assert a + b == a;
    } else {
      assert (a + b)[..|a + b| - 1] == a + b[..|b| - 1];
      NotBlankConcat(a, b[..|b| - 1]);
    }
  }

  /** What is said first is the short message, or else the message, line by line as it was written. */
  lemma MessageComesFirst(heap: Heap, ref: Ref)
    requires ref in heap
    ensures var e := heap[ref];
            var said := if Says(e.shortMessage) then e.shortMessage else e.message;
            Says(said) ==> NotBlank(Split(said.value, '\n')) <= Described(heap, Object(ref))
  {
    var e := heap[ref];
    var custom := DescribeCustomError(e.data);
    var tail := (if custom.Some? then ["Contract error: " + custom.value] else [])
                + Labelled("Revert reason: ", e.reason) + Labelled("Revert signature: ", e.signature)
                + CallLines(e) + Labelled("Details: ", e.details);
    hide Labelled, CallLines, DescribeCustomError, NotBlank;
    assert Undropped(e) == MessageLines(e) + tail;
    NotBlankConcat(MessageLines(e), tail);
  }

  // ---------------------------------------------------------------- the chain of causes

  /** What the walk visits from v on, in at most n steps and stopping at an object already seen. */
  function Chain(heap: Heap, v: Thrown, n: nat, seen: set<Ref>): (chain: seq<Thrown>)
    requires Closed(heap) && InHeap(heap, v)
    ensures |chain| <= n
    ensures forall i :: 0 <= i < |chain| ==> InHeap(heap, chain[i])
    decreases n
  {
    if n == 0 || v.Undefined? || v.Null? then []
    else if v.Primitive? then [v]
    else if v.ref in seen then []
    else [v] + Chain(heap, heap[v.ref].cause, n - 1, seen + {v.ref})
  }

  ghost predicate Stops(heap: Heap, v: Thrown, visited: seq<Thrown>, seen: set<Ref>) {
    v.Undefined? || v.Null? || (v.Object? && (v in visited || v.ref in seen))
  }

  /** The chain follows the causes, meets no object twice, and goes on as far as it can. */
  lemma {:induction false} ChainFollowsCauses(heap: Heap, v: Thrown, n: nat, seen: set<Ref>)
    requires Closed(heap) && InHeap(heap, v)
    ensures var chain := Chain(heap, v, n, seen);
            && (chain != [] ==> chain[0] == v)
            && (forall i :: 0 <= i < |chain| - 1 ==> chain[i].Object? && chain[i + 1] == heap[chain[i].ref].cause)
            && (forall i :: 0 <= i < |chain| ==> chain[i].Object? ==> chain[i].ref !in seen)
            && (forall i, j :: 0 <= i < j < |chain| ==> chain[i] != chain[j])
            && (|chain| < n ==>
                  if chain == [] then Stops(heap, v, chain, seen)
                  else
                    var last := chain[|chain| - 1];
                    last.Primitive? || (last.Object? && Stops(heap, heap[last.ref].cause, chain, seen)))
    decreases n
  {
    if n > 0 && v.Object? && v.ref !in seen {
      var next := heap[v.ref].cause;
      var rest := Chain(heap, next, n - 1, seen + {v.ref});
      ChainFollowsCauses(heap, next, n - 1, seen + {v.ref});
      var chain := Chain(heap, v, n, seen);
      assert chain == [v] + rest;
      forall i | 0 < i < |chain| ensures chain[i] == rest[i - 1] && chain[i] != v {
      }
    }
  }

  // ---------------------------------------------------------------- collecting the lines

  predicate IsBlank(line: string) {
    Trim(TrimEnd(line)) == ""
  }

  lemma IsBlankExactly(line: string)
    ensures IsBlank(line) <==> Blank(line)
    ensures Blank(line) <==> TrimEnd(line) == ""
  {
    var j := TrimEndExactly(line);
    BlankExactly(TrimEnd(line));
    assert line == TrimEnd(line) + line[j..];
    if TrimEnd(line) == "" {
      assert line == line[j..];
    }
    hide Trim;
  }

  /** `appendUnlessPresent`. */
  function Appended(lines: seq<string>, line: string): seq<string> {
    var trimmed := TrimEnd(line);
    if IsBlank(line) || trimmed in lines then lines else lines + [trimmed]
  }

  function Collect(lines: seq<string>, more: seq<string>): seq<string> {
    if more == [] then lines else Appended(Collect(lines, more[..|more| - 1]), more[|more| - 1])
  }

  lemma {:induction false} CollectConcat(lines: seq<string>, a: seq<string>, b: seq<string>)
    ensures Collect(lines, a + b) == Collect(Collect(lines, a), b)
  {
    hide Appended;
    if b == [] {
      assert a + b == a;
    } else {
      assert (a + b)[..|a + b| - 1] == a + b[..|b| - 1];
      CollectConcat(lines, a, b[..|b| - 1]);
    }
  }

  ghost predicate Distinct(lines: seq<string>) {
    forall i, j :: 0 <= i < j < |lines| ==> lines[i] != lines[j]
  }

  /** One of the lines is not blank, and is x once cut at the end. */
  ghost predicate Yields(more: seq<string>, x: string) {
    exists i :: 0 <= i < |more| && YieldsLine(more[i], x)
  }

  ghost predicate YieldsLine(line: string, x: string) {
    !Blank(line) && x == TrimEnd(line)
  }

  lemma YieldsAppend(more: seq<string>, line: string, x: string)
    ensures Yields(more + [line], x) <==> Yields(more, x) || YieldsLine(line, x)
  {
    hide YieldsLine;
    var all := more + [line];
    if Yields(more, x) {
      var i :| 0 <= i < |more| && YieldsLine(more[i], x);
      assert YieldsLine(all[i], x);
    }
    if YieldsLine(line, x) {
      assert YieldsLine(all[|more|], x);
    }
    if Yields(all, x) {
      var i :| 0 <= i < |all| && YieldsLine(all[i], x);
      assert i < |more| ==> YieldsLine(more[i], x);
    }
  }

  lemma AppendedExactly(lines: seq<string>, line: string)
    requires Distinct(lines)
    ensures Distinct(Appended(lines, line))
    ensures forall x :: x in Appended(lines, line) <==> x in lines || YieldsLine(line, x)
  {
    IsBlankExactly(line);
    hide IsBlank, TrimEnd, Blank;
  }

  /** Without duplicates, exactly the lines that are not blank, cut at the end. */
  lemma {:induction false} CollectExactly(lines: seq<string>, more: seq<string>)
    requires Distinct(lines)
    ensures Distinct(Collect(lines, more))
    ensures forall x :: x in Collect(lines, more) <==> x in lines || Yields(more, x)
  {
    if more != [] {
      var front, last := more[..|more| - 1], more[|more| - 1];
      CollectExactly(lines, front);
      AppendedExactly(Collect(lines, front), last);
      assert more == front + [last];
      hide Yields, YieldsLine, Appended;
      forall x ensures Yields(more, x) <==> Yields(front, x) || YieldsLine(last, x) {
        YieldsAppend(front, last, x);
      }
    }
  }

  /** The line at `i` is not blank, and no earlier one is the same up to white space at the end. */
  ghost predicate FirstAt(lines: seq<string>, i: int) {
    0 <= i < |lines| && !Blank(lines[i]) && forall j :: 0 <= j < i ==> TrimEnd(lines[j]) != TrimEnd(lines[i])
  }

  ghost function FirstLines(lines: seq<string>): map<int, string> {
    map i | 0 <= i < |lines| && FirstAt(lines, i) :: TrimEnd(lines[i])
  }

  /** They are collected in the order in which they first occur. */
  lemma {:induction false} CollectedInOrder(lines: seq<string>)
    ensures InOrder(Collect([], lines), FirstLines(lines))
  {
    if lines == [] {
      NothingInOrder(FirstLines(lines));
    } else {
      var n := |lines| - 1;
      CollectedInOrder(lines[..n]);
      LastCollected(lines);
      hide Collect, FirstLines, InOrder, FirstAt;
      if FirstAt(lines, n) {
        InOrderNext(Collect([], lines[..n]), FirstLines(lines[..n]), n, TrimEnd(lines[n]));
      }
    }
  }

  lemma LastCollected(lines: seq<string>)
    requires lines != []
    ensures var n := |lines| - 1;
            var rest := lines[..n];
            && Before(FirstLines(rest), n)
            && if FirstAt(lines, n)
               then Collect([], lines) == Collect([], rest) + [TrimEnd(lines[n])]
                    && FirstLines(lines) == FirstLines(rest)[n := TrimEnd(lines[n])]
               else Collect([], lines) == Collect([], rest) && FirstLines(lines) == FirstLines(rest)
  {
    var n := |lines| - 1;
    var rest, line := lines[..n], lines[n];
    CollectExactly([], rest);
    IsBlankExactly(line);
    var trimmed := TrimEnd(line);
    assert trimmed in Collect([], rest) <==> Yields(rest, trimmed);
    if !Blank(line) {
      forall j | 0 <= j < n && TrimEnd(rest[j]) == trimmed ensures YieldsLine(rest[j], trimmed) {
        IsBlankExactly(rest[j]);
      }
      assert FirstAt(lines, n) <==> !Yields(rest, trimmed);
    }
    hide Collect, Yields, IsBlank, TrimEnd, Blank, YieldsLine, FirstLines, FirstAt;
    FirstLinesNext(lines);
    CollectLast([], lines);
  }

  lemma FirstLinesNext(lines: seq<string>)
    requires lines != []
    ensures var n := |lines| - 1;
            var before := FirstLines(lines[..n]);
            && Before(before, n)
            && FirstLines(lines) == if FirstAt(lines, n) then before[n := TrimEnd(lines[n])] else before
  {
    hide TrimEnd, Blank;
    var n := |lines| - 1;
    assert forall i :: 0 <= i < n ==> (FirstAt(lines, i) <==> FirstAt(lines[..n], i));
    hide FirstAt;
    assert forall i :: 0 <= i < n ==> lines[..n][i] == lines[i];
  }

  lemma CollectLast(lines: seq<string>, more: seq<string>)
    requires more != []
    ensures Collect(lines, more) == Appended(Collect(lines, more[..|more| - 1]), more[|more| - 1])
  {
  }

  /** The descriptions of a chain, one after another. */
  function AllLines(heap: Heap, chain: seq<Thrown>): seq<string>
    requires forall i :: 0 <= i < |chain| ==> InHeap(heap, chain[i])
  {
    if chain == [] then []
    else AllLines(heap, chain[..|chain| - 1]) + Described(heap, chain[|chain| - 1])
  }

  // ---------------------------------------------------------------- putting the decoded revert first

  predicate IsDecodedRevert(line: string) {
    "Contract error: " <= line || "Revert reason: " <= line
  }

  /** The lines of one group, in their order. */
  function Select(lines: seq<string>, decoded: bool): seq<string> {
    if lines == [] then []
    else
      Select(lines[..|lines| - 1], decoded)
      + if IsDecodedRevert(lines[|lines| - 1]) == decoded then [lines[|lines| - 1]] else []
  }

  /** A group's lines are picked in their order, the decoded ones by how they begin. */
  lemma {:induction false} SelectExactly(lines: seq<string>, decoded: bool)
    ensures InOrder(Select(lines, decoded), GroupAt(lines, decoded))
  {
    if lines == [] {
      NothingInOrder(GroupAt(lines, decoded));
    } else {
      var n := |lines| - 1;
      SelectExactly(lines[..n], decoded);
      LastSelected(lines, decoded);
      hide Select, GroupAt, InOrder;
      if BeginsDecoded(lines[n]) == decoded {
        InOrderNext(Select(lines[..n], decoded), GroupAt(lines[..n], decoded), n, lines[n]);
      }
    }
  }

  ghost predicate BeginsDecoded(line: string) {
    "Contract error: " <= line || "Revert reason: " <= line
  }

  ghost function GroupAt(lines: seq<string>, decoded: bool): map<int, string> {
    map i | 0 <= i < |lines| && BeginsDecoded(lines[i]) == decoded :: lines[i]
  }

  lemma LastSelected(lines: seq<string>, decoded: bool)
    requires lines != []
    ensures var n := |lines| - 1;
            var rest := lines[..n];
            && Before(GroupAt(rest, decoded), n)
            && if BeginsDecoded(lines[n]) == decoded
               then Select(lines, decoded) == Select(rest, decoded) + [lines[n]]
                    && GroupAt(lines, decoded) == GroupAt(rest, decoded)[n := lines[n]]
               else Select(lines, decoded) == Select(rest, decoded) && GroupAt(lines, decoded) == GroupAt(rest, decoded)
  {
    var n := |lines| - 1;
    assert IsDecodedRevert(lines[n]) <==> BeginsDecoded(lines[n]);
    hide IsDecodedRevert, BeginsDecoded;
    assert Select(lines[..n], decoded) + [] == Select(lines[..n], decoded);
    assert forall i :: 0 <= i < n ==> lines[..n][i] == lines[i];
    assert GroupAt(lines, decoded)
        == if BeginsDecoded(lines[n]) == decoded then GroupAt(lines[..n], decoded)[n := lines[n]]
           else GroupAt(lines[..n], decoded);
  }

  /** Of the labelled lines the decoded reverts are the error and the reason. */
  lemma LabelsDecide(e: ErrorObject, field: int, line: string)
    requires Contributes(e, field, line) && field > 0
    ensures IsDecodedRevert(line) <==> field == 1 || field == 2
  {
    hide Says, ArgumentList;
    if field == 3 {
      assert line[7] == 's' && "Revert reason: "[7] == 'r' && line[0] == 'R';
    } else if field == 4 {
      assert line[9] == 'c' && "Contract error: "[9] == 'e' && line[0] == 'C';
    } else if field > 4 {
      assert line[0] == (if field == 5 then 'S' else 'D') && "Contract error: "[0] == 'C'
             && "Revert reason: "[0] == 'R';
    }
  }

  function HoistDecodedRevert(lines: seq<string>): seq<string> {
    var decoded := Select(lines, true);
    if decoded == [] then lines
    else
      var rest := Select(lines, false);
      var one := if rest == [] then 0 else 1;
      rest[..one] + decoded + rest[one..]
  }

  lemma {:induction false} SelectConcat(a: seq<string>, b: seq<string>, decoded: bool)
    ensures Select(a + b, decoded) == Select(a, decoded) + Select(b, decoded)
  {
    hide IsDecodedRevert;
    if b == [] {
      assert a + b == a;
    } else {
      assert (a + b)[..|a + b| - 1] == a + b[..|b| - 1];
      SelectConcat(a, b[..|b| - 1], decoded);
    }
  }

  ghost predicate OfGroup(lines: seq<string>, decoded: bool) {
    forall i :: 0 <= i < |lines| ==> IsDecodedRevert(lines[i]) == decoded
  }

  lemma {:induction false} SelectIsOfGroup(lines: seq<string>, decoded: bool)
    ensures OfGroup(Select(lines, decoded), decoded)
  {
    hide IsDecodedRevert;
    if lines != [] {
      SelectIsOfGroup(lines[..|lines| - 1], decoded);
    }
  }

  lemma {:induction false} SelectOfGroup(lines: seq<string>, group: bool, decoded: bool)
    requires OfGroup(lines, group)
    ensures Select(lines, decoded) == if decoded == group then lines else []
  {
    hide IsDecodedRevert;
    if lines != [] {
      SelectOfGroup(lines[..|lines| - 1], group, decoded);
    }
  }

  lemma {:induction false} SelectPartitions(lines: seq<string>)
    ensures multiset(Select(lines, true)) + multiset(Select(lines, false)) == multiset(lines)
  {
    hide IsDecodedRevert;
    if lines != [] {
      var front, last := lines[..|lines| - 1], lines[|lines| - 1];
      SelectPartitions(front);
      assert lines == front + [last];
      SelectPartitionsLast(front, last);
    }
  }

  lemma SelectPartitionsLast(front: seq<string>, last: string)
    requires multiset(Select(front, true)) + multiset(Select(front, false)) == multiset(front)
    ensures multiset(Select(front + [last], true)) + multiset(Select(front + [last], false)) == multiset(front + [last])
  {
    hide IsDecodedRevert, Select;
    var a, b := multiset(Select(front, true)), multiset(Select(front, false));
    SelectLast(front, last, true);
    SelectLast(front, last, false);
    AddToEither(a, b, last);
    assert multiset(front + [last]) == (a + b) + multiset{last};
    if IsDecodedRevert(last) {
      assert multiset(Select(front + [last], false)) == b + multiset{};
    } else {
      assert multiset(Select(front + [last], true)) == a + multiset{};
    }
  }

  lemma AddToEither(a: multiset<string>, b: multiset<string>, x: string)
    ensures (a + multiset{x}) + (b + multiset{}) == (a + b) + multiset{x}
    ensures (a + multiset{}) + (b + multiset{x}) == (a + b) + multiset{x}
  {
  }

  lemma SelectLast(front: seq<string>, last: string, decoded: bool)
    ensures multiset(Select(front + [last], decoded))
         == multiset(Select(front, decoded)) + if IsDecodedRevert(last) == decoded then multiset{last} else multiset{}
  {
    hide IsDecodedRevert;
    assert (front + [last])[..|front|] == front;
    assert Select(front, decoded) + [] == Select(front, decoded);
  }

  /**
   The same lines in another order: both groups keep theirs, and every decoded revert stands right
   after the first other line.
   */
  lemma HoistReorders(lines: seq<string>)
    ensures var r := HoistDecodedRevert(lines);
            && multiset(r) == multiset(lines)
            && (forall decoded :: Select(r, decoded) == Select(lines, decoded))
            && (Select(lines, true) != [] && Select(lines, false) != [] ==> DecodedSecond(r, |Select(lines, true)|))
  {
    hide IsDecodedRevert, Select, OfGroup, DecodedSecond;
    var decoded, rest := Select(lines, true), Select(lines, false);
    SelectPartitions(lines);
    SelectIsOfGroup(lines, true);
    SelectIsOfGroup(lines, false);
    if decoded != [] {
      var one := if rest == [] then 0 else 1;
      var first, others := rest[..one], rest[one..];
      PartsOfGroup(rest, one, false);
      assert rest == first + others;
      HoistedMembers(first, decoded, others);
      forall group: bool ensures Select(first + decoded + others, group) == if group then decoded else rest {
        HoistedGroup(first, decoded, others, group);
      }
      if rest != [] {
        HoistedPlaces(first, decoded, others);
      }
    }
  }

  lemma PartsOfGroup(lines: seq<string>, n: nat, group: bool)
    requires OfGroup(lines, group) && n <= |lines|
    ensures OfGroup(lines[..n], group) && OfGroup(lines[n..], group)
  {
    hide IsDecodedRevert;
  }

  lemma HoistedMembers(first: seq<string>, decoded: seq<string>, others: seq<string>)
    ensures multiset(first + decoded + others) == multiset(decoded) + multiset(first + others)
  {
    assert multiset(first + decoded + others) == multiset(first) + multiset(decoded) + multiset(others);
    assert multiset(first + others) == multiset(first) + multiset(others);
  }

  /** One other line, then n decoded ones, then only others. */
  ghost predicate DecodedSecond(r: seq<string>, n: nat) {
    r != [] && !IsDecodedRevert(r[0]) && forall i :: 1 <= i < |r| ==> (IsDecodedRevert(r[i]) <==> i <= n)
  }

  lemma HoistedPlaces(first: seq<string>, decoded: seq<string>, others: seq<string>)
    requires |first| == 1 && OfGroup(first, false) && OfGroup(decoded, true) && OfGroup(others, false)
    ensures DecodedSecond(first + decoded + others, |decoded|)
  {
    hide IsDecodedRevert;
    var r := first + decoded + others;
    forall i | 1 <= i < |r| ensures IsDecodedRevert(r[i]) <==> i <= |decoded| {
      assert r[i] == if i <= |decoded| then decoded[i - 1] else others[i - 1 - |decoded|];
    }
    assert r[0] == first[0];
  }

  lemma HoistedGroup(first: seq<string>, decoded: seq<string>, others: seq<string>, group: bool)
    requires OfGroup(first, false) && OfGroup(decoded, true) && OfGroup(others, false)
    ensures Select(first + decoded + others, group) == if group then decoded else first + others
  {
    hide IsDecodedRevert, OfGroup, Select;
    SelectConcat(first + decoded, others, group);
    SelectConcat(first, decoded, group);
    SelectOfGroup(first, false, group);
    SelectOfGroup(decoded, true, group);
    SelectOfGroup(others, false, group);
    if group {
      assert [] + decoded + [] == decoded;
    } else {
      assert first + [] + others == first + others;
    }
  }

  // ---------------------------------------------------------------- the whole description

  ghost function Reported(heap: Heap, error: Thrown): seq<string>
    requires Closed(heap) && InHeap(heap, error)
  {
    var lines := Collect([], AllLines(heap, Chain(heap, error, MAX_ERROR_CAUSE_DEPTH, {})));
    if lines == [] then Appended([], Shown(heap, error)) else lines
  }

  method DescribeFatalError(heap: Heap, error: Thrown) returns (result: seq<string>)
    requires Closed(heap) && InHeap(heap, error)
    ensures result == HoistDecodedRevert(Reported(heap, error))
  {
    hide Described, Appended, Collect, AllLines, Chain, HoistDecodedRevert, Shown;
    var lines: seq<string> := [];
    var seen: set<Ref> := {};
    var current := error;
    ghost var whole := Chain(heap, error, MAX_ERROR_CAUSE_DEPTH, {});
    ghost var visited: seq<Thrown> := [];
    CollectNothing(heap, [], "");
    var depth := 0;
    var going := true;
    while depth < MAX_ERROR_CAUSE_DEPTH && going
      invariant depth <= MAX_ERROR_CAUSE_DEPTH && InHeap(heap, current)
      invariant forall i :: 0 <= i < |visited| ==> InHeap(heap, visited[i])
      invariant lines == Collect([], AllLines(heap, visited))
      invariant whole == visited + if going then Chain(heap, current, MAX_ERROR_CAUSE_DEPTH - depth, seen) else []
      decreases MAX_ERROR_CAUSE_DEPTH - depth, going
    {
      ChainStep(heap, current, MAX_ERROR_CAUSE_DEPTH - depth, seen);
      if current.Undefined? || current.Null? || (current.Object? && current.ref in seen) {
        going := false;
      } else {
        if current.Object? {
          seen := seen + {current.ref};
        }
        var described := DescribeOneError(heap, current);
        lines := AppendAll(lines, described);
        CollectConcat([], AllLines(heap, visited), described);
        AllLinesAppend(heap, visited, current);
        visited := visited + [current];
        if !current.Object? {
          going := false;
        } else {
          current := heap[current.ref].cause;
        }
        depth := depth + 1;
      }
    }
    ChainEnds(heap, current, seen);
    assert whole == visited;
    if lines == [] {
      lines := AppendAll(lines, [Shown(heap, error)]);
      CollectNothing(heap, [], Shown(heap, error));
    }
    result := HoistDecodedRevert(lines);
  }

  lemma CollectNothing(heap: Heap, lines: seq<string>, line: string)
    ensures AllLines(heap, []) == [] && Collect(lines, []) == lines
    ensures Collect(lines, [line]) == Appended(lines, line)
  {
    assert Collect(lines, [line][..0]) == lines;
  }

  lemma ChainStep(heap: Heap, v: Thrown, n: nat, seen: set<Ref>)
    requires Closed(heap) && InHeap(heap, v) && n > 0
    ensures Chain(heap, v, n, seen) ==
            if v.Undefined? || v.Null? || (v.Object? && v.ref in seen) then []
            else [v] + if v.Object? then Chain(heap, heap[v.ref].cause, n - 1, seen + {v.ref}) else []
  {
  }

  lemma ChainEnds(heap: Heap, v: Thrown, seen: set<Ref>)
    requires Closed(heap) && InHeap(heap, v)
    ensures Chain(heap, v, 0, seen) == []
  {
  }

  lemma AllLinesAppend(heap: Heap, chain: seq<Thrown>, v: Thrown)
    requires InHeap(heap, v) && forall i :: 0 <= i < |chain| ==> InHeap(heap, chain[i])
    ensures AllLines(heap, chain + [v]) == AllLines(heap, chain) + Described(heap, v)
  {
    assert (chain + [v])[..|chain|] == chain;
  }

  method AppendAll(lines: seq<string>, more: seq<string>) returns (r: seq<string>)
    ensures r == Collect(lines, more)
  {
    r := lines;
    for i := 0 to |more|
      invariant r == Collect(lines, more[..i])
    {
      r := Appended(r, more[i]);
      assert more[..i + 1][..i] == more[..i];
    }
    assert more[..|more|] == more;
  }

  /** Some line of the chain, or else of the error itself, is worth printing. */
  ghost predicate SaysSomething(heap: Heap, error: Thrown)
    requires Closed(heap) && InHeap(heap, error)
  {
    || (exists x :: Yields(AllLines(heap, Chain(heap, error, 8, {})), x))
    || !Blank(Shown(heap, error))
  }

  /** What is to be printed: the lines of the errors visited, or, if they have none, the error's own text. */
  ghost predicate ToPrint(heap: Heap, error: Thrown, x: string)
    requires Closed(heap) && InHeap(heap, error)
  {
    var all := AllLines(heap, Chain(heap, error, 8, {}));
    Yields(all, x) || ((forall y :: !Yields(all, y)) && YieldsLine(Shown(heap, error), x))
  }

  /**
   No line is printed twice; a line is printed exactly when it is to be; and something is printed
   exactly when there is something to say.
   */
  lemma DescriptionIsComplete(heap: Heap, error: Thrown)
    requires Closed(heap) && InHeap(heap, error)
    ensures var r := HoistDecodedRevert(Reported(heap, error));
            && Distinct(r)
            && (r != [] <==> SaysSomething(heap, error))
            && forall x :: x in r <==> ToPrint(heap, error, x)
  {
    hide Collect, Yields, IsBlank, Chain, AllLines, Shown, HoistDecodedRevert, Reported, SaysSomething, ToPrint;
    var lines := Reported(heap, error);
    ReportedIsComplete(heap, error);
    HoistReorders(lines);
    hide Select, DecodedSecond;
    Permuted(lines, HoistDecodedRevert(lines));
  }

  lemma ReportedIsComplete(heap: Heap, error: Thrown)
    requires Closed(heap) && InHeap(heap, error)
    ensures var r := Reported(heap, error);
            && Distinct(r)
            && (r != [] <==> SaysSomething(heap, error))
            && forall x :: x in r <==> ToPrint(heap, error, x)
  {
    var all := AllLines(heap, Chain(heap, error, MAX_ERROR_CAUSE_DEPTH, {}));
    hide Chain, AllLines, Shown;
    CollectedIsComplete(all, Shown(heap, error));
    hide Appended, Collect, Yields, YieldsLine;
  }

  /** What is collected, or if that is nothing the text by itself. */
  lemma CollectedIsComplete(all: seq<string>, text: string)
    ensures var r := if Collect([], all) == [] then Appended([], text) else Collect([], all);
            && Distinct(r)
            && (r != [] <==> (exists x :: Yields(all, x)) || !Blank(text))
            && forall x :: x in r <==> Yields(all, x) || ((forall y :: !Yields(all, y)) && YieldsLine(text, x))
  {
    var collected := Collect([], all);
    CollectExactly([], all);
    hide Collect, Yields;
    assert collected != [] ==> collected[0] in collected && Yields(all, collected[0]);
    assert collected == [] ==> forall x :: !Yields(all, x);
    FirstLine(text);
    IsBlankExactly(text);
    assert YieldsLine(text, TrimEnd(text)) <==> !Blank(text);
    hide Appended, IsBlank, Blank, TrimEnd;
  }

  lemma FirstLine(line: string)
    ensures Appended([], line) == if IsBlank(line) then [] else [TrimEnd(line)]
  {
  }

  lemma Permuted(a: seq<string>, b: seq<string>)
    requires multiset(a) == multiset(b) && Distinct(a)
    ensures Distinct(b) && (a == [] <==> b == []) && forall x :: x in a <==> x in b
  {
    DistinctCounts(a);
    CountsDistinct(b);
    assert |multiset(a)| == |a| && |multiset(b)| == |b|;
    forall x ensures x in a <==> x in b {
      assert x in multiset(a) <==> x in multiset(b);
    }
  }

  lemma CountsDistinct(lines: seq<string>)
    requires forall x :: multiset(lines)[x] <= 1
    ensures Distinct(lines)
  {
    forall i, j | 0 <= i < j < |lines| ensures lines[i] != lines[j] {
      var front, back := lines[..j], lines[j..];
      assert lines == front + back;
      assert multiset(lines) == multiset(front) + multiset(back);
      var x := lines[j];
      assert back[0] == x && multiset(back)[x] >= 1;
      assert multiset(lines)[x] == multiset(front)[x] + multiset(back)[x];
      assert x !in front;
      assert front[i] in front;
    }
  }

  lemma {:induction false} DistinctCounts(lines: seq<string>)
    requires Distinct(lines)
    ensures forall x :: multiset(lines)[x] <= 1
  {
    if lines != [] {
      var front, last := lines[..|lines| - 1], lines[|lines| - 1];
      DistinctCounts(front);
      assert lines == front + [last];
      assert last !in front;
    }
  }

  /** What is not an object prints as it reads, without white space at the end, and nothing if that is blank. */
  lemma PlainValuesPrintThemselves(heap: Heap, error: Thrown)
    requires Closed(heap) && !error.Object?
    ensures var text := match error
                        case Undefined => "undefined"
                        case Null => "null"
                        case Primitive(text) => text
                        case Object(_) => "";
            HoistDecodedRevert(Reported(heap, error)) == if Blank(text) then [] else [TrimEnd(text)]
  {
    var text := Shown(heap, error);
    IsBlankExactly(text);
    assert AllLines(heap, []) == [];
    assert [error][..0] == [] && [text][..0] == [];
    assert error.Primitive? ==> AllLines(heap, [error]) == [] + [text];
    assert Collect([], [text]) == Appended([], text);
    if !Blank(text) {
      OneLineStays(TrimEnd(text));
    }
    hide Trim, TrimEnd, Blank, IsDecodedRevert;
  }

  lemma OneLineStays(line: string)
    ensures HoistDecodedRevert([line]) == [line]
  {
    hide IsDecodedRevert;
    assert [line][..0] == [];
    assert Select([line], true) == [] || (Select([line], true) == [line] && Select([line], false) == []);
  }
}
