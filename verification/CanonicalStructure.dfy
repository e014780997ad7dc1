/**
 The canonical rendering that decides whether a mined transaction is the one that was signed.

 Nothing is escaped in it, so that two renderings are equal only for values that agree has to be
 proved: `RenderingDecides` does, for values whose strings hold no comma and no closing bracket or
 brace, and whose keys hold no colon and do not start with a closing brace. Every one of these
 exclusions is needed: five lemmas at the end show what collides without it.
 */
module CanonicalStructure {
  import opened Options
  import opened Text
  import D = Decimals

  datatype Value =
    | Undefined
    | Null
    | Boolean(b: bool)
    | Number(n: int)
    | BigInt(big: int)
    | Str(s: string)
    | Arr(items: seq<Value>)
    | Obj(entries: seq<Entry>)

  /** Own properties in insertion order. */
  datatype Entry = Entry(key: string, value: Value)

  // ---------------------------------------------------------------- sorting by key

  predicate Less(a: string, b: string) {
    b != "" && (a == "" || a[0] < b[0] || (a[0] == b[0] && Less(a[1..], b[1..])))
  }

  lemma {:induction false} LessTransitive(a: string, b: string, c: string)
    requires Less(a, b) && Less(b, c)
    ensures Less(a, c)
  {
    if a != "" && a[0] == b[0] == c[0] {
      LessTransitive(a[1..], b[1..], c[1..]);
    }
  }

  lemma {:induction false} LessTrichotomy(a: string, b: string)
    ensures a == b || Less(a, b) || Less(b, a)
    ensures !(Less(a, b) && Less(b, a)) && (a == b ==> !Less(a, b))
  {
    if a != "" && b != "" {
      LessTrichotomy(a[1..], b[1..]);
      if a[0] == b[0] && a[1..] == b[1..] {
        assert a == [a[0]] + a[1..] == b;
      }
    }
  }

  function Size(v: Value): (n: nat)
    ensures n >= 1
  {
    match v
    case Arr(items) => 1 + SizeItems(items)
    case Obj(entries) => 1 + SizeEntries(entries)
    case _ => 1
  }

  function SizeItems(items: seq<Value>): nat {
    if items == [] then 0 else Size(items[0]) + SizeItems(items[1..])
  }

  function SizeEntries(entries: seq<Entry>): nat {
    if entries == [] then 0 else Size(entries[0].value) + SizeEntries(entries[1..])
  }

  function Insert(e: Entry, sorted: seq<Entry>): (r: seq<Entry>)
    ensures SizeEntries(r) == Size(e.value) + SizeEntries(sorted)
  {
    if sorted == [] then [e]
    else if Less(sorted[0].key, e.key) then
      var rest := Insert(e, sorted[1..]);
      assert ([sorted[0]] + rest)[1..] == rest;
      [sorted[0]] + rest
    else
      assert ([e] + sorted)[1..] == sorted;
      [e] + sorted
  }

  /** The entries that are not undefined, by increasing key. */
  function Fields(entries: seq<Entry>): (r: seq<Entry>)
    ensures SizeEntries(r) <= SizeEntries(entries)
  {
    if entries == [] then []
    else if entries[0].value.Undefined? then Fields(entries[1..])
    else Insert(entries[0], Fields(entries[1..]))
  }

  // ---------------------------------------------------------------- rendering

  function PrintInt(n: int): string {
    if n < 0 then "-" + D.Print(-n) else D.Print(n)
  }

  function Render(v: Value): string
    decreases Size(v), 0
  {
    match v
    case Undefined => "undefined:" + "undefined"
    case Null => "object:" + "null"
    case Boolean(b) => "boolean:" + if b then "true" else "false"
    case Number(n) => "number:" + PrintInt(n)
    case BigInt(n) => "bigint:" + PrintInt(n)
    case Str(s) => "string:" + Lower(s)
    case Arr(items) => "[" + RenderItems(items) + "]"
    case Obj(entries) => "{" + RenderFields(Fields(entries)) + "}"
  }

  function RenderItems(items: seq<Value>): string
    decreases SizeItems(items), 1
  {
    if items == [] then ""
    else if |items| == 1 then Render(items[0])
    else Render(items[0]) + "," + RenderItems(items[1..])
  }

  function RenderField(e: Entry): string
    decreases Size(e.value), 1
  {
    e.key + ":" + Render(e.value)
  }

  function RenderFields(fields: seq<Entry>): string
    decreases SizeEntries(fields), 2
  {
    if fields == [] then ""
    else if |fields| == 1 then RenderField(fields[0])
    else RenderField(fields[0]) + "," + RenderFields(fields[1..])
  }

  // ---------------------------------------------------------------- what the rendering stands for

  /** Agreement up to the case of strings, the order of keys, and entries that are undefined. */
  ghost predicate Agree(v: Value, w: Value)
    decreases v
  {
    match (v, w)
    case (Str(s), Str(t)) => SameLetters(s, t)
    case (Arr(xs), Arr(ys)) => |xs| == |ys| && forall i :: 0 <= i < |xs| ==> Agree(xs[i], ys[i])
    case (Obj(es), Obj(fs)) =>
      && (forall k :: HasField(es, k) <==> HasField(fs, k))
      && (forall i, j :: 0 <= i < |es| && 0 <= j < |fs| && es[i].key == fs[j].key && !es[i].value.Undefined?
                         ==> Agree(es[i].value, fs[j].value))
    case _ => v == w && !v.Arr? && !v.Obj?
  }

  ghost predicate HasField(es: seq<Entry>, k: string) {
    exists i :: 0 <= i < |es| && es[i].key == k && !es[i].value.Undefined?
  }

  ghost predicate DistinctKeys(es: seq<Entry>) {
    forall i, j :: 0 <= i < j < |es| ==> es[i].key != es[j].key
  }

  /** Objects have each key once, at every level. */
  ghost predicate WellFormed(v: Value)
    decreases v
  {
    match v
    case Arr(items) => forall i :: 0 <= i < |items| ==> WellFormed(items[i])
    case Obj(entries) => DistinctKeys(entries) && forall i :: 0 <= i < |entries| ==> WellFormed(entries[i].value)
    case _ => true
  }

  /** What can end a value inside an array or an object. */
  predicate Terminator(c: char) {
    c == ',' || c == ']' || c == '}'
  }

  ghost predicate NoTerminator(s: string) {
    forall i :: 0 <= i < |s| ==> !Terminator(s[i])
  }

  predicate CleanKey(k: string) {
    ':' !in k && (k != "" ==> k[0] != '}')
  }

  /** No string holds a terminator, no key a colon, and no key starts like the end of an object. */
  ghost predicate Clean(v: Value)
    decreases v
  {
    match v
    case Str(s) => NoTerminator(s)
    case Arr(items) => forall i :: 0 <= i < |items| ==> Clean(items[i])
    case Obj(entries) => forall i :: 0 <= i < |entries| ==> CleanKey(entries[i].key) && Clean(entries[i].value)
    case _ => true
  }

  // ---------------------------------------------------------------- agreement is an equivalence

  lemma {:induction false} AgreeReflexive(v: Value)
    requires WellFormed(v)
    ensures Agree(v, v)
    decreases v
  {
    match v {
      case Arr(items) =>
        forall i | 0 <= i < |items| ensures Agree(items[i], items[i]) {
          AgreeReflexive(items[i]);
        }
      case Obj(entries) =>
        forall i | 0 <= i < |entries| ensures Agree(entries[i].value, entries[i].value) {
          AgreeReflexive(entries[i].value);
        }
      case _ =>
    }
  }

  lemma {:induction false} AgreeSymmetric(v: Value, w: Value)
    requires WellFormed(v) && WellFormed(w) && Agree(v, w)
    ensures Agree(w, v)
    decreases v
  {
    match (v, w) {
      case (Arr(xs), Arr(ys)) =>
        forall i | 0 <= i < |ys| ensures Agree(ys[i], xs[i]) {
          AgreeSymmetric(xs[i], ys[i]);
        }
      case (Obj(es), Obj(fs)) =>
        forall j, i | 0 <= j < |fs| && 0 <= i < |es| && fs[j].key == es[i].key && !fs[j].value.Undefined?
          ensures Agree(fs[j].value, es[i].value)
        {
          assert HasField(fs, fs[j].key);
          DefinedThere(es, i);
          AgreeSymmetric(es[i].value, fs[j].value);
        }
      case _ =>
    }
  }

  /** With distinct keys, the entry that makes an object have a field is the one with that key. */
  lemma DefinedThere(es: seq<Entry>, i: nat)
    requires DistinctKeys(es) && i < |es| && HasField(es, es[i].key)
    ensures !es[i].value.Undefined?
  {
    var k :| 0 <= k < |es| && es[k].key == es[i].key && !es[k].value.Undefined?;
    assert k == i;
  }

  lemma {:induction false} AgreeTransitive(u: Value, v: Value, w: Value)
    requires WellFormed(u) && WellFormed(v) && WellFormed(w) && Agree(u, v) && Agree(v, w)
    ensures Agree(u, w)
    decreases u
  {
    match (u, v, w) {
      case (Arr(xs), Arr(ys), Arr(zs)) =>
        forall i | 0 <= i < |xs| ensures Agree(xs[i], zs[i]) {
          AgreeTransitive(xs[i], ys[i], zs[i]);
        }
      case (Obj(es), Obj(fs), Obj(gs)) =>
        forall i, l | 0 <= i < |es| && 0 <= l < |gs| && es[i].key == gs[l].key && !es[i].value.Undefined?
          ensures Agree(es[i].value, gs[l].value)
        {
          assert HasField(es, es[i].key);
          var j :| 0 <= j < |fs| && fs[j].key == es[i].key && !fs[j].value.Undefined?;
          AgreeTransitive(es[i].value, fs[j].value, gs[l].value);
        }
      case _ =>
    }
  }

  // ---------------------------------------------------------------- sorted fields are determined by the entries

  ghost predicate Increasing(s: seq<Entry>) {
    forall i, j :: 0 <= i < j < |s| ==> Less(s[i].key, s[j].key)
  }

  lemma {:induction false} InsertKeeps(e: Entry, s: seq<Entry>)
    requires Increasing(s) && forall i :: 0 <= i < |s| ==> s[i].key != e.key
    ensures Increasing(Insert(e, s))
    ensures forall x :: x in Insert(e, s) <==> x == e || x in s
  {
    if s != [] {
      LessTrichotomy(s[0].key, e.key);
      if Less(s[0].key, e.key) {
        InsertKeeps(e, s[1..]);
        var r := Insert(e, s[1..]);
        forall j | 0 <= j < |r| ensures Less(s[0].key, r[j].key) {
          assert r[j] in r;
          if r[j] != e {
            var k :| 0 <= k < |s[1..]| && s[1..][k] == r[j];
            assert s[k + 1] == r[j];
          }
        }
      } else {
        forall j | 0 <= j < |s| ensures Less(e.key, s[j].key) {
          if j > 0 {
            LessTransitive(e.key, s[0].key, s[j].key);
          }
        }
      }
    }
  }

  /** The fields are exactly the defined entries, strictly increasing by key. */
  lemma {:induction false} FieldsOfEntries(es: seq<Entry>)
    requires DistinctKeys(es)
    ensures Increasing(Fields(es))
    ensures forall x :: x in Fields(es) <==> x in es && !x.value.Undefined?
  {
    if es != [] {
      FieldsOfEntries(es[1..]);
      if !es[0].value.Undefined? {
        forall i | 0 <= i < |Fields(es[1..])| ensures Fields(es[1..])[i].key != es[0].key {
          assert Fields(es[1..])[i] in es[1..];
          var k :| 0 <= k < |es[1..]| && es[1..][k] == Fields(es[1..])[i];
          assert es[k + 1] == Fields(es[1..])[i];
        }
        InsertKeeps(es[0], Fields(es[1..]));
      }
    }
  }

  /** The same keys in the same order. */
  ghost predicate SameKeys(s: seq<Entry>, t: seq<Entry>) {
    |s| == |t| && forall i :: 0 <= i < |s| ==> s[i].key == t[i].key
  }

  ghost predicate KeyIn(s: seq<Entry>, k: string) {
    exists i :: 0 <= i < |s| && s[i].key == k
  }

  lemma {:induction false} IncreasingIsUnique(s: seq<Entry>, t: seq<Entry>)
    requires Increasing(s) && Increasing(t)
    requires forall k :: KeyIn(s, k) <==> KeyIn(t, k)
    ensures SameKeys(s, t)
  {
    if s == [] {
      if t != [] {
        assert KeyIn(t, t[0].key);
      }
    } else {
      assert KeyIn(s, s[0].key);
      assert t != [];
      assert KeyIn(t, t[0].key);
      FirstKeyEqual(s, t);
      forall k ensures KeyIn(s[1..], k) <==> KeyIn(t[1..], k) {
        TailKeys(s, k);
        TailKeys(t, k);
      }
      IncreasingIsUnique(s[1..], t[1..]);
      forall i | 0 <= i < |s| ensures s[i].key == t[i].key {
        if i > 0 {
          assert s[1..][i - 1].key == t[1..][i - 1].key;
        }
      }
    }
  }

  lemma FirstKeyEqual(s: seq<Entry>, t: seq<Entry>)
    requires s != [] && t != [] && Increasing(s) && Increasing(t)
    requires KeyIn(t, s[0].key) && KeyIn(s, t[0].key)
    ensures s[0].key == t[0].key
  {
    LessTrichotomy(s[0].key, t[0].key);
    HeadIsLeast(s, t[0].key);
    HeadIsLeast(t, s[0].key);
  }

  lemma HeadIsLeast(s: seq<Entry>, k: string)
    requires s != [] && Increasing(s) && KeyIn(s, k)
    ensures k == s[0].key || Less(s[0].key, k)
  {
    var i :| 0 <= i < |s| && s[i].key == k;
  }

  lemma TailKeys(s: seq<Entry>, k: string)
    requires s != [] && Increasing(s)
    ensures KeyIn(s[1..], k) <==> KeyIn(s, k) && k != s[0].key
  {
    if KeyIn(s, k) && k != s[0].key {
      var i :| 0 <= i < |s| && s[i].key == k;
      assert s[1..][i - 1].key == k;
    }
    if KeyIn(s[1..], k) {
      var i :| 0 <= i < |s[1..]| && s[1..][i].key == k;
      assert s[i + 1].key == k && Less(s[0].key, s[i + 1].key);
      LessTrichotomy(s[0].key, k);
    }
  }

  lemma KeysOfFields(es: seq<Entry>, k: string)
    requires DistinctKeys(es)
    ensures KeyIn(Fields(es), k) <==> HasField(es, k)
  {
    FieldsOfEntries(es);
    if KeyIn(Fields(es), k) {
      var i :| 0 <= i < |Fields(es)| && Fields(es)[i].key == k;
      assert Fields(es)[i] in es;
      var j :| 0 <= j < |es| && es[j] == Fields(es)[i];
    }
    if HasField(es, k) {
      var i :| 0 <= i < |es| && es[i].key == k && !es[i].value.Undefined?;
      assert es[i] in Fields(es);
      var j :| 0 <= j < |Fields(es)| && Fields(es)[j] == es[i];
    }
  }

  /** Pairwise agreement of sorted fields: the same keys, and values that agree. */
  ghost predicate FieldsAgree(s: seq<Entry>, t: seq<Entry>) {
    SameKeys(s, t) && forall i :: 0 <= i < |s| ==> Agree(s[i].value, t[i].value)
  }

  /** Two objects agree exactly when their sorted fields do, one by one. */
  lemma ObjectsAgreeByFields(es: seq<Entry>, fs: seq<Entry>)
    requires DistinctKeys(es) && DistinctKeys(fs)
    ensures Agree(Obj(es), Obj(fs)) <==> FieldsAgree(Fields(es), Fields(fs))
  {
    FieldsOfEntries(es);
    FieldsOfEntries(fs);
    if Agree(Obj(es), Obj(fs)) {
      AgreeingObjectsAlign(es, fs);
    }
    if FieldsAgree(Fields(es), Fields(fs)) {
      AlignedObjectsAgree(es, fs);
    }
  }

  lemma AgreeingObjectsAlign(es: seq<Entry>, fs: seq<Entry>)
    requires DistinctKeys(es) && DistinctKeys(fs) && Agree(Obj(es), Obj(fs))
    ensures FieldsAgree(Fields(es), Fields(fs))
  {
    var s, t := Fields(es), Fields(fs);
    FieldsOfEntries(es);
    FieldsOfEntries(fs);
    forall k ensures KeyIn(s, k) <==> KeyIn(t, k) {
      KeysOfFields(es, k);
      KeysOfFields(fs, k);
      assert HasField(es, k) <==> HasField(fs, k);
    }
    IncreasingIsUnique(s, t);
    forall i | 0 <= i < |s| ensures Agree(s[i].value, t[i].value) {
      assert s[i] in es && t[i] in fs;
      var a :| 0 <= a < |es| && es[a] == s[i];
      var b :| 0 <= b < |fs| && fs[b] == t[i];
      assert es[a].key == fs[b].key && !es[a].value.Undefined?;
    }
  }

  lemma AlignedObjectsAgree(es: seq<Entry>, fs: seq<Entry>)
    requires DistinctKeys(es) && DistinctKeys(fs) && FieldsAgree(Fields(es), Fields(fs))
    ensures Agree(Obj(es), Obj(fs))
  {
    var s, t := Fields(es), Fields(fs);
    FieldsOfEntries(es);
    FieldsOfEntries(fs);
    forall k ensures HasField(es, k) <==> HasField(fs, k) {
      KeysOfFields(es, k);
      KeysOfFields(fs, k);
      SameKeysSameMembers(s, t, k);
    }
    forall a, b | 0 <= a < |es| && 0 <= b < |fs| && es[a].key == fs[b].key && !es[a].value.Undefined?
      ensures Agree(es[a].value, fs[b].value)
    {
      assert es[a] in s;
      var i :| 0 <= i < |s| && s[i] == es[a];
      assert t[i] in fs;
      var c :| 0 <= c < |fs| && fs[c] == t[i];
      assert fs[c].key == fs[b].key;
      assert c == b;
    }
  }

  lemma SameKeysSameMembers(s: seq<Entry>, t: seq<Entry>, k: string)
    requires SameKeys(s, t)
    ensures KeyIn(s, k) <==> KeyIn(t, k)
  {
    if KeyIn(s, k) {
      var i :| 0 <= i < |s| && s[i].key == k;
      assert t[i].key == k;
    }
    if KeyIn(t, k) {
      var i :| 0 <= i < |t| && t[i].key == k;
      assert s[i].key == k;
    }
  }

  // ---------------------------------------------------------------- agreeing values render alike

  lemma {:induction false} AgreeingRenderAlike(v: Value, w: Value)
    requires WellFormed(v) && WellFormed(w) && Agree(v, w)
    ensures Render(v) == Render(w)
    decreases Size(v), 0
  {
    match (v, w) {
      case (Arr(xs), Arr(ys)) =>
        ItemsRenderAlike(xs, ys);
      case (Obj(es), Obj(fs)) =>
        ObjectsAgreeByFields(es, fs);
        WellFormedFields(es);
        WellFormedFields(fs);
        FieldsRenderAlike(Fields(es), Fields(fs));
      case _ =>
    }
  }

  lemma WellFormedFields(es: seq<Entry>)
    requires WellFormed(Obj(es))
    ensures forall x :: x in Fields(es) ==> WellFormed(x.value)
    ensures Clean(Obj(es)) ==> forall x :: x in Fields(es) ==> CleanKey(x.key) && Clean(x.value)
  {
    FieldsOfEntries(es);
  }

  lemma {:induction false} ItemsRenderAlike(xs: seq<Value>, ys: seq<Value>)
    requires |xs| == |ys|
    requires forall i :: 0 <= i < |xs| ==> WellFormed(xs[i]) && WellFormed(ys[i]) && Agree(xs[i], ys[i])
    ensures RenderItems(xs) == RenderItems(ys)
    decreases SizeItems(xs), 1
  {
    if xs != [] {
      AgreeingRenderAlike(xs[0], ys[0]);
      ItemsRenderAlike(xs[1..], ys[1..]);
    }
  }

  lemma {:induction false} FieldsRenderAlike(s: seq<Entry>, t: seq<Entry>)
    requires FieldsAgree(s, t)
    requires forall x :: x in s || x in t ==> WellFormed(x.value)
    ensures RenderFields(s) == RenderFields(t)
    decreases SizeEntries(s), 1
  {
    if s != [] {
      assert s[0] in s && t[0] in t;
      AgreeingRenderAlike(s[0].value, t[0].value);
      assert FieldsAgree(s[1..], t[1..]);
      FieldsRenderAlike(s[1..], t[1..]);
    }
  }

  // ---------------------------------------------------------------- a rendering can be read in only one way

  /** What may follow a value: nothing, or a terminator. */
  predicate Ends(s: string) {
    s == "" || Terminator(s[0])
  }

  lemma {:induction false} TextBeforeTerminator(a: string, b: string, s: string, t: string)
    requires NoTerminator(a) && NoTerminator(b) && Ends(s) && Ends(t) && a + s == b + t
    ensures a == b && s == t
  {
    TextStart(a, s);
    TextStart(b, t);
    if a != "" && b != "" {
      TextBeforeTerminator(a[1..], b[1..], s, t);
      assert a == [a[0]] + a[1..] && b == [b[0]] + b[1..];
    }
  }

  lemma TextStart(a: string, s: string)
    ensures a == "" ==> a + s == s
    ensures a != "" ==> (a + s)[0] == a[0] && (a + s)[1..] == a[1..] + s
  {
  }

  lemma {:induction false} KeyBeforeColon(a: string, b: string, s: string, t: string)
    requires ':' !in a && ':' !in b && a + ":" + s == b + ":" + t
    ensures a == b && s == t
  {
    KeyStart(a, s);
    KeyStart(b, t);
    if a != "" && b != "" {
      KeyBeforeColon(a[1..], b[1..], s, t);
      assert a == [a[0]] + a[1..] && b == [b[0]] + b[1..];
    }
  }

  lemma KeyStart(a: string, s: string)
    ensures (a + ":" + s)[0] == if a == "" then ':' else a[0]
    ensures (a + ":" + s)[1..] == if a == "" then s else a[1..] + ":" + s
  {
  }

  predicate Atom(v: Value) {
    !v.Arr? && !v.Obj?
  }

  lemma {:induction false} PrintHasNoTerminator(n: nat)
    ensures NoTerminator(D.Print(n)) && D.Print(n)[0] != '-'
  {
    D.PrintIsCanonical(n);
  }

  lemma PrintIntInjective(m: int, n: int)
    requires PrintInt(m) == PrintInt(n)
    ensures m == n
  {
    var a, b := if m < 0 then -m else m, if n < 0 then -n else n;
    D.ValueOfPrint(a);
    D.ValueOfPrint(b);
    PrintHasNoTerminator(a);
    PrintHasNoTerminator(b);
    if m < 0 && n < 0 {
      assert PrintInt(m)[1..] == D.Print(a) && PrintInt(n)[1..] == D.Print(b);
    }
  }

  lemma PrintIntHasNoTerminator(n: int)
    ensures NoTerminator(PrintInt(n))
  {
    PrintHasNoTerminator(if n < 0 then -n else n);
  }

  lemma TaggedText(tag: string, s: string)
    requires tag != "" && NoTerminator(tag) && NoTerminator(s)
    ensures NoTerminator(tag + s) && tag + s != "" && (tag + s)[0] == tag[0]
  {
    forall i | 0 <= i < |tag + s| ensures !Terminator((tag + s)[i]) {
      assert (tag + s)[i] == if i < |tag| then tag[i] else s[i - |tag|];
    }
  }

  lemma LowerHasNoTerminator(s: string)
    requires NoTerminator(s)
    ensures NoTerminator(Lower(s))
  {
    forall i | 0 <= i < |s| ensures !Terminator(Lower(s)[i]) {
      assert !Terminator(s[i]);
    }
  }

  lemma Plain(s: string)
    requires ',' !in s && ']' !in s && '}' !in s
    ensures NoTerminator(s)
  {
  }

  /** What kind of value a rendering announces, and what follows. */
  function Tag(v: Value): string
    requires Atom(v)
  {
    match v
    case Undefined => "undefined:"
    case Null => "object:"
    case Boolean(_) => "boolean:"
    case Number(_) => "number:"
    case BigInt(_) => "bigint:"
    case Str(_) => "string:"
  }

  function Body(v: Value): string
    requires Atom(v)
  {
    match v
    case Undefined => "undefined"
    case Null => "null"
    case Boolean(b) => if b then "true" else "false"
    case Number(n) => PrintInt(n)
    case BigInt(n) => PrintInt(n)
    case Str(s) => Lower(s)
  }

  lemma TagHasNoTerminator(v: Value)
    requires Atom(v)
    ensures NoTerminator(Tag(v)) && Tag(v) != "" && Tag(v)[0] != '[' && Tag(v)[0] != '{'
  {
    Plain(Tag(v));
    hide NoTerminator;
  }

  lemma BodyHasNoTerminator(v: Value)
    requires Atom(v) && Clean(v)
    ensures NoTerminator(Body(v))
  {
    if v.Number? {
      PrintIntHasNoTerminator(v.n);
    } else if v.BigInt? {
      PrintIntHasNoTerminator(v.big);
    } else if v.Str? {
      LowerHasNoTerminator(v.s);
    } else {
      Plain(Body(v));
    }
  }

  lemma AtomHasNoTerminator(v: Value)
    requires Atom(v) && Clean(v)
    ensures NoTerminator(Render(v)) && Render(v) != "" && Render(v)[0] != '[' && Render(v)[0] != '{'
  {
    TagHasNoTerminator(v);
    BodyHasNoTerminator(v);
    assert Render(v) == Tag(v) + Body(v);
    hide Tag, Body, Render, NoTerminator;
    TaggedText(Tag(v), Body(v));
  }

  lemma EqualAtomsAgree(v: Value, w: Value)
    requires Atom(v) && Atom(w) && Render(v) == Render(w)
    ensures Agree(v, w)
  {
    assert Render(v)[0] == Render(w)[0] && Render(v)[1] == Render(w)[1];
    match (v, w) {
      case (Number(m), Number(n)) =>
        assert Render(v)[7..] == PrintInt(m) && Render(w)[7..] == PrintInt(n);
        PrintIntInjective(m, n);
      case (BigInt(m), BigInt(n)) =>
        assert Render(v)[7..] == PrintInt(m) && Render(w)[7..] == PrintInt(n);
        PrintIntInjective(m, n);
      case (Str(s), Str(t)) =>
        assert Render(v)[7..] == Lower(s) && Render(w)[7..] == Lower(t);
        LowerExactly(s, t);
      case (Boolean(a), Boolean(b)) =>
        assert Render(v)[8] == Render(w)[8];
      case _ =>
    }
  }

  /** The first character tells arrays and objects from the rest. */
  lemma FirstCharacter(v: Value, s: string)
    requires Clean(v)
    ensures Render(v) != "" && (Render(v) + s)[0] == Render(v)[0]
    ensures !Terminator(Render(v)[0])
    ensures Render(v)[0] == '[' <==> v.Arr?
    ensures Render(v)[0] == '{' <==> v.Obj?
  {
    if Atom(v) {
      AtomHasNoTerminator(v);
    }
  }

  lemma ReadAtom(v: Value, w: Value, s: string, t: string)
    requires Atom(v) && Atom(w) && Clean(v) && Clean(w)
    requires Ends(s) && Ends(t) && Render(v) + s == Render(w) + t
    ensures Agree(v, w) && s == t
  {
    AtomHasNoTerminator(v);
    AtomHasNoTerminator(w);
    var a, b := Render(v), Render(w);
    TextBeforeTerminator(a, b, s, t);
    EqualAtomsAgree(v, w);
  }

  /** Reading a clean value off the front of a text leaves one possible value and one possible rest. */
  lemma {:induction false} ReadOneValue(v: Value, w: Value, s: string, t: string)
    requires WellFormed(v) && WellFormed(w) && Clean(v) && Clean(w)
    requires Ends(s) && Ends(t) && Render(v) + s == Render(w) + t
    ensures Agree(v, w) && s == t
    decreases Size(v), 0
  {
    FirstCharacter(v, s);
    FirstCharacter(w, t);
    if v.Arr? {
      ArrayRest(v.items, s);
      ArrayRest(w.items, t);
      ReadItems(v.items, w.items, s, t);
    } else if v.Obj? {
      ObjectRest(v.entries, s);
      ObjectRest(w.entries, t);
      ReadObject(v.entries, w.entries, s, t);
    } else {
      ReadAtom(v, w, s, t);
    }
  }

  lemma ArrayRest(xs: seq<Value>, s: string)
    ensures (Render(Arr(xs)) + s)[1..] == RenderItems(xs) + ("]" + s)
  {
  }

  lemma ObjectRest(es: seq<Entry>, s: string)
    ensures (Render(Obj(es)) + s)[1..] == RenderFields(Fields(es)) + ("}" + s)
  {
  }

  lemma {:induction false} ReadObject(es: seq<Entry>, fs: seq<Entry>, s: string, t: string)
    requires WellFormed(Obj(es)) && WellFormed(Obj(fs)) && Clean(Obj(es)) && Clean(Obj(fs))
    requires RenderFields(Fields(es)) + ("}" + s) == RenderFields(Fields(fs)) + ("}" + t)
    ensures Agree(Obj(es), Obj(fs)) && s == t
    decreases SizeEntries(es), 2
  {
    WellFormedFields(es);
    WellFormedFields(fs);
    ReadFields(Fields(es), Fields(fs), s, t);
    ObjectsAgreeByFields(es, fs);
  }

  /** What follows the first of several items: a comma and the others, or the closing bracket. */
  function ItemsTail(xs: seq<Value>, s: string): string
    requires xs != []
  {
    if |xs| == 1 then "]" + s else "," + (RenderItems(xs[1..]) + ("]" + s))
  }

  lemma ItemsHead(xs: seq<Value>, s: string)
    requires xs != []
    ensures RenderItems(xs) + ("]" + s) == Render(xs[0]) + ItemsTail(xs, s)
  {
    if |xs| > 1 {
      Regroup(Render(xs[0]), ",", RenderItems(xs[1..]), "]" + s);
    }
  }

  lemma {:induction false} ReadItems(xs: seq<Value>, ys: seq<Value>, s: string, t: string)
    requires forall i :: 0 <= i < |xs| ==> WellFormed(xs[i]) && Clean(xs[i])
    requires forall i :: 0 <= i < |ys| ==> WellFormed(ys[i]) && Clean(ys[i])
    requires RenderItems(xs) + ("]" + s) == RenderItems(ys) + ("]" + t)
    ensures |xs| == |ys| && s == t
    ensures forall i :: 0 <= i < |xs| ==> Agree(xs[i], ys[i])
    decreases SizeItems(xs), 1
  {
    if xs == [] || ys == [] {
      ClosingComesFirst(xs, ys, s, t);
    } else {
      ItemsHead(xs, s);
      ItemsHead(ys, t);
      var a, b := ItemsTail(xs, s), ItemsTail(ys, t);
      assert a[0] == (if |xs| == 1 then ']' else ',') && b[0] == (if |ys| == 1 then ']' else ',');
      ReadOneValue(xs[0], ys[0], a, b);
      assert a[0] == b[0] && a[1..] == b[1..];
      if |xs| == 1 {
        assert a[1..] == s && b[1..] == t;
      } else {
        assert a[1..] == RenderItems(xs[1..]) + ("]" + s);
        assert b[1..] == RenderItems(ys[1..]) + ("]" + t);
        ReadItems(xs[1..], ys[1..], s, t);
        forall i | 0 <= i < |xs| ensures Agree(xs[i], ys[i]) {
          if i > 0 {
            assert Agree(xs[1..][i - 1], ys[1..][i - 1]);
          }
        }
      }
    }
  }

  lemma ClosingComesFirst(xs: seq<Value>, ys: seq<Value>, s: string, t: string)
    requires forall i :: 0 <= i < |xs| ==> Clean(xs[i])
    requires forall i :: 0 <= i < |ys| ==> Clean(ys[i])
    requires RenderItems(xs) + ("]" + s) == RenderItems(ys) + ("]" + t)
    requires xs == [] || ys == []
    ensures xs == [] && ys == [] && s == t
  {
    hide Clean, Render, RenderItems;
    ItemStart(xs, s);
    ItemStart(ys, t);
    JustClosing(s);
    JustClosing(t);
  }

  lemma JustClosing(s: string)
    ensures (RenderItems([]) + ("]" + s))[1..] == s
  {
  }

  lemma ItemStart(xs: seq<Value>, s: string)
    requires forall i :: 0 <= i < |xs| ==> Clean(xs[i])
    ensures (RenderItems(xs) + ("]" + s))[0] == ']' <==> xs == []
  {
    if xs != [] {
      ItemsHead(xs, s);
      FirstCharacter(xs[0], ItemsTail(xs, s));
    }
  }

  function FieldsTail(fields: seq<Entry>, s: string): string
    requires fields != []
  {
    if |fields| == 1 then "}" + s else "," + (RenderFields(fields[1..]) + ("}" + s))
  }

  lemma FieldsHead(fields: seq<Entry>, s: string)
    requires fields != []
    ensures RenderFields(fields) + ("}" + s) == fields[0].key + ":" + (Render(fields[0].value) + FieldsTail(fields, s))
  {
    var k, v := fields[0].key, Render(fields[0].value);
    if |fields| == 1 {
      Regroup(k, ":", v, "}" + s);
    } else {
      var rest := RenderFields(fields[1..]);
      Regroup(k + ":" + v, ",", rest, "}" + s);
      Regroup(k, ":", v, "," + (rest + ("}" + s)));
    }
  }

  lemma Regroup(a: string, b: string, c: string, d: string)
    ensures (a + b + c) + d == a + (b + (c + d)) == a + b + (c + d)
  {
  }

  lemma {:induction false} ReadFields(xs: seq<Entry>, ys: seq<Entry>, s: string, t: string)
    requires forall x :: x in xs || x in ys ==> WellFormed(x.value) && CleanKey(x.key) && Clean(x.value)
    requires RenderFields(xs) + ("}" + s) == RenderFields(ys) + ("}" + t)
    ensures FieldsAgree(xs, ys) && s == t
    decreases SizeEntries(xs), 1
  {
    if xs == [] || ys == [] {
      ClosingBraceComesFirst(xs, ys, s, t);
    } else {
      FieldsHead(xs, s);
      FieldsHead(ys, t);
      assert xs[0] in xs && ys[0] in ys;
      var a, b := FieldsTail(xs, s), FieldsTail(ys, t);
      KeyBeforeColon(xs[0].key, ys[0].key, Render(xs[0].value) + a, Render(ys[0].value) + b);
      assert a[0] == (if |xs| == 1 then '}' else ',') && b[0] == (if |ys| == 1 then '}' else ',');
      ReadOneValue(xs[0].value, ys[0].value, a, b);
      assert a[0] == b[0] && a[1..] == b[1..];
      if |xs| == 1 {
        assert a[1..] == s && b[1..] == t;
      } else {
        assert a[1..] == RenderFields(xs[1..]) + ("}" + s);
        assert b[1..] == RenderFields(ys[1..]) + ("}" + t);
        ReadFields(xs[1..], ys[1..], s, t);
        forall i | 0 <= i < |xs| ensures xs[i].key == ys[i].key && Agree(xs[i].value, ys[i].value) {
          if i > 0 {
            assert xs[1..][i - 1] == xs[i] && ys[1..][i - 1] == ys[i];
          }
        }
      }
    }
  }

  lemma ClosingBraceComesFirst(xs: seq<Entry>, ys: seq<Entry>, s: string, t: string)
    requires forall x :: x in xs || x in ys ==> CleanKey(x.key)
    requires RenderFields(xs) + ("}" + s) == RenderFields(ys) + ("}" + t)
    requires xs == [] || ys == []
    ensures xs == [] && ys == [] && s == t
  {
    FieldStart(xs, s);
    FieldStart(ys, t);
    assert ("" + ("}" + s))[1..] == s && ("" + ("}" + t))[1..] == t;
  }

  lemma FieldStart(xs: seq<Entry>, s: string)
    requires forall x :: x in xs ==> CleanKey(x.key)
    ensures (RenderFields(xs) + ("}" + s))[0] == '}' <==> xs == []
  {
    if xs != [] {
      FieldsHead(xs, s);
      assert xs[0] in xs;
      var k, rest := xs[0].key, Render(xs[0].value) + FieldsTail(xs, s);
      KeyStart(k, rest);
    }
  }

  // ---------------------------------------------------------------- the theorem

  /** For clean values, equal renderings mean agreement and agreement means equal renderings. */
  lemma RenderingDecides(v: Value, w: Value)
    requires WellFormed(v) && WellFormed(w) && Clean(v) && Clean(w)
    ensures Render(v) == Render(w) <==> Agree(v, w)
  {
    if Render(v) == Render(w) {
      assert Render(v) + "" == Render(w) + "";
      ReadOneValue(v, w, "", "");
    }
    if Agree(v, w) {
      AgreeingRenderAlike(v, w);
    }
  }

  // ---------------------------------------------------------------- every exclusion is needed

  /** Two well-formed values that do not agree and yet render alike. */
  ghost predicate Collide(v: Value, w: Value) {
    WellFormed(v) && WellFormed(w) && Render(v) == Render(w) && !Agree(v, w)
  }

  lemma RenderTwo(u: Value, v: Value)
    ensures RenderItems([u, v]) == Render(u) + "," + Render(v)
  {
    assert [u, v][1..] == [v];
  }

  lemma RenderOne(v: Value)
    ensures RenderItems([v]) == Render(v)
  {
  }

  /** A comma in a string: one string renders like two. */
  lemma CommaInStringCollides(a: string, b: string)
    ensures Collide(Arr([Str(a + (",string:" + b))]), Arr([Str(a), Str(b)]))
  {
    LowerOfJoin(a, ",string:" + b);
    LowerOfJoin(",string:", b);
    LowerFixed(",string:");
    assert "," + "string:" == ",string:";
    CommaRegroups("string:", Lower(a), ",", Lower(b));
    RenderOne(Str(a + (",string:" + b)));
    RenderTwo(Str(a), Str(b));
  }

  lemma CommaRegroups(tag: string, a: string, comma: string, b: string)
    ensures tag + (a + ((comma + tag) + b)) == (tag + a) + comma + (tag + b)
  {
  }

  /** A closing bracket in a string: the string may end an array that it is not in. */
  lemma BracketInStringCollides(a: string, b: string)
    ensures Collide(Arr([Arr([Str(a)]), Str(b + "]")]), Arr([Arr([Str(a + "]"), Str(b)])]))
  {
    LowerOfJoin(a, "]");
    LowerOfJoin(b, "]");
    LowerFixed("]");
    RenderOne(Str(a));
    RenderTwo(Arr([Str(a)]), Str(b + "]"));
    RenderTwo(Str(a + "]"), Str(b));
    RenderOne(Arr([Str(a + "]"), Str(b)]));
    ClosingRegroups("string:", Lower(a), ",", Lower(b), "[", "]");
  }

  lemma ClosingRegroups(tag: string, a: string, comma: string, b: string, open: string, close: string)
    ensures (open + (tag + a) + close) + comma + (tag + (b + close))
         == open + ((tag + (a + close)) + comma + (tag + b)) + close
  {
    var l := (open + (tag + a) + close) + comma + (tag + (b + close));
    assert l == open + (tag + (a + (close + (comma + (tag + (b + close))))));
  }

  lemma FieldsOfOne(e: Entry)
    requires !e.value.Undefined?
    ensures Fields([e]) == [e] && RenderFields([e]) == e.key + ":" + Render(e.value)
  {
    assert [e][1..] == [];
  }

  lemma FieldsOfTwo(d: Entry, e: Entry)
    requires !d.value.Undefined? && !e.value.Undefined? && Less(d.key, e.key)
    ensures Fields([d, e]) == [d, e]
    ensures RenderFields([d, e]) == RenderFields([d]) + "," + RenderFields([e])
  {
    LessTrichotomy(d.key, e.key);
    FieldsOfOne(e);
    assert [d, e][1..] == [e];
  }

  /** A closing brace in a string: the same with objects, for any two keys p and q in that order. */
  lemma BraceInStringCollides(p: string, q: string, a: string, b: string)
    requires Less(p, q)
    ensures Collide(Obj([Entry(p, Obj([Entry(p, Str(a))])), Entry(q, Str(b + "}"))]),
                    Obj([Entry(p, Obj([Entry(p, Str(a + "}")), Entry(q, Str(b))]))]))
  {
    hide Agree;
    LowerOfJoin(a, "}");
    LowerOfJoin(b, "}");
    LowerFixed("}");
    LessTrichotomy(p, q);
    var inner, longer := Obj([Entry(p, Str(a))]), Obj([Entry(p, Str(a + "}")), Entry(q, Str(b))]);
    var v, w := [Entry(p, inner), Entry(q, Str(b + "}"))], [Entry(p, longer)];
    FieldsOfOne(Entry(p, Str(a)));
    FieldsOfTwo(Entry(p, inner), Entry(q, Str(b + "}")));
    FieldsOfOne(Entry(p, inner));
    FieldsOfOne(Entry(q, Str(b + "}")));
    FieldsOfTwo(Entry(p, Str(a + "}")), Entry(q, Str(b)));
    FieldsOfOne(Entry(p, Str(a + "}")));
    FieldsOfOne(Entry(q, Str(b)));
    FieldsOfOne(Entry(p, longer));
    BraceRegroups(p, q, ":", "string:", Lower(a), ",", Lower(b), "{", "}");
    OnlyOneHas(v, w, 1);
    assert Render(inner) == "{" + RenderFields(inner.entries) + "}";
    assert Render(longer) == "{" + RenderFields(longer.entries) + "}";
    assert Render(Obj(v)) == "{" + RenderFields(v) + "}";
    assert Render(Obj(w)) == "{" + RenderFields(w) + "}";
    WellFormedOne(Entry(p, Str(a)));
    WellFormedTwo(Entry(p, inner), Entry(q, Str(b + "}")));
    WellFormedTwo(Entry(p, Str(a + "}")), Entry(q, Str(b)));
    WellFormedOne(Entry(p, longer));
    assert Render(Obj(v)) == Render(Obj(w));
  }

  lemma WellFormedOne(e: Entry)
    requires WellFormed(e.value)
    ensures WellFormed(Obj([e]))
  {
  }

  lemma WellFormedTwo(d: Entry, e: Entry)
    requires d.key != e.key && WellFormed(d.value) && WellFormed(e.value)
    ensures WellFormed(Obj([d, e]))
  {
  }

  lemma OnlyOneHas(v: seq<Entry>, w: seq<Entry>, i: nat)
    requires i < |v| && !v[i].value.Undefined? && forall j :: 0 <= j < |w| ==> w[j].key != v[i].key
    ensures !Agree(Obj(v), Obj(w))
  {
    assert HasField(v, v[i].key) && !HasField(w, v[i].key);
  }

  lemma BraceRegroups(p: string, q: string, colon: string, tag: string, a: string, comma: string, b: string,
                      open: string, close: string)
    ensures (p + colon + (open + (p + colon + (tag + a)) + close)) + comma + (q + colon + (tag + (b + close)))
         == p + colon + (open + ((p + colon + (tag + (a + close))) + comma + (q + colon + (tag + b))) + close)
  {
    var l := (p + colon + (open + (p + colon + (tag + a)) + close)) + comma + (q + colon + (tag + (b + close)));
    assert l ==
           p + (colon + (open + (p + (colon + (tag + (a + (close + (comma + (q + (colon + (tag + (b + close))))))))))));
  }

  /** A colon in a key: it may take over what starts the value. */
  lemma ColonInKeyCollides(k: string, a: string)
    ensures Collide(Obj([Entry(k, Str("string:" + a))]), Obj([Entry(k + ":string", Str(a))]))
  {
    hide Agree;
    LowerOfJoin("string:", a);
    LowerFixed("string:");
    FieldsOfOne(Entry(k, Str("string:" + a)));
    FieldsOfOne(Entry(k + ":string", Str(a)));
    assert ":string" + ":" == ":" + "string:";
    ColonRegroups(k, ":string", ":", "string:", Lower(a));
    assert |k + ":string"| > |k|;
    var v, w := [Entry(k, Str("string:" + a))], [Entry(k + ":string", Str(a))];
    OnlyOneHas(v, w, 0);
    assert Render(Obj(v)) == "{" + RenderFields(v) + "}";
    assert Render(Obj(w)) == "{" + RenderFields(w) + "}";
    WellFormedOne(v[0]);
    WellFormedOne(w[0]);
    assert Render(Obj(v)) == Render(Obj(w));
  }

  lemma ColonRegroups(k: string, word: string, colon: string, tag: string, a: string)
    requires word + colon == colon + tag
    ensures k + colon + (tag + (tag + a)) == (k + word) + colon + (tag + a)
  {
    assert k + colon + (tag + (tag + a)) == k + (colon + tag) + (tag + a);
    assert (k + word) + colon + (tag + a) == k + (word + colon) + (tag + a);
  }

  /** A key that starts with a closing brace: the object before it may be read as empty. */
  lemma BraceBeforeKeyCollides(k: string, u: Value)
    requires WellFormed(u) && !u.Undefined?
    ensures Collide(Arr([Obj([Entry("},{" + k, u)])]), Arr([Obj([]), Obj([Entry(k, u)])]))
  {
    FieldsOfOne(Entry("},{" + k, u));
    FieldsOfOne(Entry(k, u));
    RenderOne(Obj([Entry("},{" + k, u)]));
    RenderTwo(Obj([]), Obj([Entry(k, u)]));
    assert "}" + "," + "{" == "},{";
    EmptyRegroups("{", "}", ",", k, ":", Render(u));
  }

  lemma EmptyRegroups(open: string, close: string, comma: string, k: string, colon: string, u: string)
    ensures open + (((close + comma + open) + k) + colon + u) + close
         == (open + "" + close) + comma + (open + (k + colon + u) + close)
  {
  }

  lemma LowerOfJoin(a: string, b: string)
    ensures Lower(a + b) == Lower(a) + Lower(b)
  {
  }

  lemma LowerFixed(s: string)
    requires forall i :: 0 <= i < |s| ==> !('A' <= s[i] <= 'Z')
    ensures Lower(s) == s
  {
  }

  datatype Exclusion = CommaInString | BracketInString | BraceInString | ColonInKey | BraceAtKeyStart

  predicate TextBut(s: string, lifted: Option<Exclusion>) {
    && (',' in s ==> lifted == Some(CommaInString))
    && (']' in s ==> lifted == Some(BracketInString))
    && ('}' in s ==> lifted == Some(BraceInString))
  }

  predicate KeyBut(k: string, lifted: Option<Exclusion>) {
    && (':' in k ==> lifted == Some(ColonInKey))
    && (k != "" && k[0] == '}' ==> lifted == Some(BraceAtKeyStart))
  }

  /** Clean, with at most one exclusion lifted. */
  ghost predicate CleanBut(v: Value, lifted: Option<Exclusion>)
    decreases v
  {
    match v
    case Str(s) => TextBut(s, lifted)
    case Arr(items) => forall i :: 0 <= i < |items| ==> CleanBut(items[i], lifted)
    case Obj(entries) =>
      forall i :: 0 <= i < |entries| ==> KeyBut(entries[i].key, lifted) && CleanBut(entries[i].value, lifted)
    case _ => true
  }

  lemma {:induction false} NothingLifted(v: Value)
    ensures CleanBut(v, None) <==> Clean(v)
    decreases v
  {
    match v {
      case Str(s) =>
        assert ',' !in s && ']' !in s && '}' !in s <==> NoTerminator(s);
      case Arr(items) =>
        forall i | 0 <= i < |items| ensures CleanBut(items[i], None) <==> Clean(items[i]) {
          NothingLifted(items[i]);
        }
      case Obj(entries) =>
        forall i | 0 <= i < |entries| ensures CleanBut(entries[i].value, None) <==> Clean(entries[i].value) {
          NothingLifted(entries[i].value);
        }
      case _ =>
    }
  }

  lemma CleanField(e: Entry, x: Option<Exclusion>)
    requires KeyBut(e.key, x) && CleanBut(e.value, x)
    ensures CleanBut(Obj([e]), x)
  {
  }

  lemma CleanFields(d: Entry, e: Entry, x: Option<Exclusion>)
    requires KeyBut(d.key, x) && CleanBut(d.value, x) && KeyBut(e.key, x) && CleanBut(e.value, x)
    ensures CleanBut(Obj([d, e]), x)
  {
  }

  lemma CommaAlone() returns (v: Value, w: Value)
    ensures CleanBut(v, Some(CommaInString)) && CleanBut(w, Some(CommaInString)) && Collide(v, w)
  {
    v, w := Arr([Str(",string:")]), Arr([Str(""), Str("")]);
    assert "" + (",string:" + "") == ",string:";
    CommaInStringCollides("", "");
    hide Collide;
    assert TextBut(",string:", Some(CommaInString)) && TextBut("", Some(CommaInString));
  }

  lemma BracketAlone() returns (v: Value, w: Value)
    ensures CleanBut(v, Some(BracketInString)) && CleanBut(w, Some(BracketInString)) && Collide(v, w)
  {
    v, w := Arr([Arr([Str("")]), Str("]")]), Arr([Arr([Str("]"), Str("")])]);
    assert "" + "]" == "]";
    BracketInStringCollides("", "");
    hide Collide;
    assert TextBut("]", Some(BracketInString)) && TextBut("", Some(BracketInString));
  }

  lemma CleanBraces()
    ensures var x := Some(BraceInString);
            CleanBut(Str("}"), x) && CleanBut(Str(""), x) && KeyBut("", x) && KeyBut("k", x)
  {
  }

  lemma BraceAlone() returns (v: Value, w: Value)
    ensures CleanBut(v, Some(BraceInString)) && CleanBut(w, Some(BraceInString)) && Collide(v, w)
  {
    v := Obj([Entry("", Obj([Entry("", Str(""))])), Entry("k", Str("}"))]);
    w := Obj([Entry("", Obj([Entry("", Str("}")), Entry("k", Str(""))]))]);
    assert "" + "}" == "}";
    BraceInStringCollides("", "k", "", "");
    hide Collide, Less;
    var x := Some(BraceInString);
    CleanBraces();
    hide CleanBut, TextBut, KeyBut;
    CleanField(Entry("", Str("")), x);
    CleanFields(Entry("", Obj([Entry("", Str(""))])), Entry("k", Str("}")), x);
    CleanFields(Entry("", Str("}")), Entry("k", Str("")), x);
    CleanField(Entry("", Obj([Entry("", Str("}")), Entry("k", Str(""))])), x);
  }

  lemma CleanColons()
    ensures var x := Some(ColonInKey);
            CleanBut(Str("string:"), x) && CleanBut(Str(""), x) && KeyBut("", x) && KeyBut(":string", x)
  {
  }

  lemma ColonAlone() returns (v: Value, w: Value)
    ensures CleanBut(v, Some(ColonInKey)) && CleanBut(w, Some(ColonInKey)) && Collide(v, w)
  {
    v, w := Obj([Entry("", Str("string:"))]), Obj([Entry(":string", Str(""))]);
    assert "string:" + "" == "string:" && "" + ":string" == ":string";
    ColonInKeyCollides("", "");
    hide Collide;
    var x := Some(ColonInKey);
    CleanColons();
    hide CleanBut, TextBut, KeyBut;
    CleanField(Entry("", Str("string:")), x);
    CleanField(Entry(":string", Str("")), x);
  }

  lemma KeyBraceAlone() returns (v: Value, w: Value)
    ensures CleanBut(v, Some(BraceAtKeyStart)) && CleanBut(w, Some(BraceAtKeyStart)) && Collide(v, w)
  {
    v, w := Arr([Obj([Entry("},{", Null)])]), Arr([Obj([]), Obj([Entry("", Null)])]);
    assert "},{" + "" == "},{";
    BraceBeforeKeyCollides("", Null);
    var x := Some(BraceAtKeyStart);
    hide Collide;
    assert KeyBut("", x) && KeyBut("},{", x);
    CleanField(Entry("", Null), x);
    CleanField(Entry("},{", Null), x);
    hide KeyBut;
  }

  /** Two values that collide although they break only that one exclusion. */
  lemma CollisionOf(x: Exclusion) returns (v: Value, w: Value)
    ensures CleanBut(v, Some(x)) && CleanBut(w, Some(x)) && Collide(v, w)
  {
    hide CleanBut, Collide;
    match x {
      case CommaInString => v, w := CommaAlone();
      case BracketInString => v, w := BracketAlone();
      case BraceInString => v, w := BraceAlone();
      case ColonInKey => v, w := ColonAlone();
      case BraceAtKeyStart => v, w := KeyBraceAlone();
    }
  }

  /** Equal renderings mean agreement, for all values that are clean but for one kind of exception. */
  ghost predicate Decides(lifted: Option<Exclusion>) {
    forall v, w ::
      WellFormed(v) && WellFormed(w) && CleanBut(v, lifted) && CleanBut(w, lifted) && Render(v) == Render(w) ==>
        Agree(v, w)
  }

  /** The rendering decides exactly when no exclusion is lifted. */
  lemma ExclusionsAreExact(lifted: Option<Exclusion>)
    ensures Decides(lifted) <==> lifted == None
  {
    hide Render, Agree, WellFormed, CleanBut, Clean;
    if lifted.Some? {
      var v, w := CollisionOf(lifted.value);
      assert WellFormed(v) && WellFormed(w) && CleanBut(v, lifted) && CleanBut(w, lifted);
      assert Render(v) == Render(w) && !Agree(v, w);
    } else {
      forall v, w |
        WellFormed(v) && WellFormed(w) && CleanBut(v, lifted) && CleanBut(w, lifted) && Render(v) == Render(w)
        ensures Agree(v, w)
      {
        NothingLifted(v);
        NothingLifted(w);
        RenderingDecides(v, w);
      }
    }
  }
}
