/** The textual form of a container: one line per entry, in key order. A parser over the decimal
    fields shows that the text determines the map. */
module Printing {
  import opened Messages
  import opened OrderedMap
  import opened SearchTree

  datatype Option<+T> = None | Some(value: T) {
    predicate IsFailure() {
      None?
    }
    function PropagateFailure<U>(): Option<U>
      requires None?
    {
      None
    }
    function Extract(): T
      requires Some?
    {
      value
    }
  }

  // ------------------------------------------------------------ decimal numbers

  predicate IsDigit(c: char) {
    '0' <= c <= '9'
  }

  function Digit(d: nat): (c: char)
    requires d < 10
    ensures IsDigit(c) && DigitValue(c) == d && c == "0123456789"[d]
  {
    '0' + d as char
  }

  function DigitValue(c: char): nat
    requires IsDigit(c)
  {
    c as int - '0' as int
  }

  function ToDecimal(n: nat): string {
    if n < 10 then [Digit(n)] else ToDecimal(n / 10) + [Digit(n % 10)]
  }

  /** Number of digits that s starts with. */
  function DigitPrefix(s: string): (n: nat)
    ensures n <= |s|
    ensures forall i | 0 <= i < n :: IsDigit(s[i])
  {
    if s == [] || !IsDigit(s[0]) then 0 else 1 + DigitPrefix(s[1..])
  }

  function DecimalValue(s: string): nat
    requires forall i | 0 <= i < |s| :: IsDigit(s[i])
  {
    if s == [] then 0 else 10 * DecimalValue(s[..|s| - 1]) + DigitValue(s[|s| - 1])
  }

  lemma {:induction false} DecimalRoundTrip(n: nat)
    ensures |ToDecimal(n)| > 0
    ensures forall i | 0 <= i < |ToDecimal(n)| :: IsDigit(ToDecimal(n)[i])
    ensures DecimalValue(ToDecimal(n)) == n
  {
    if n < 10 {
    } else {
      DecimalRoundTrip(n / 10);
      assert ToDecimal(n)[..|ToDecimal(n)| - 1] == ToDecimal(n / 10);
    }
  }

  /** Numbers are written without leading zeros. */
  lemma {:induction false} DecimalForm(n: nat)
    ensures n < 10 ==> ToDecimal(n) == ["0123456789"[n]]
    ensures n >= 10 ==> |ToDecimal(n)| > 1 && ToDecimal(n)[0] != '0'
  {
    if n < 10 {
    } else {
      DecimalForm(n / 10);
      assert ToDecimal(n)[0] == ToDecimal(n / 10)[0];
    }
  }

  lemma DecimalSnoc(s: string, d: nat)
    requires forall i | 0 <= i < |s| :: IsDigit(s[i])
    requires d < 10
    ensures DecimalValue(s + [Digit(d)]) == 10 * DecimalValue(s) + d
  {
    assert (s + [Digit(d)])[..|s|] == s;
  }

  lemma {:induction false} DecimalPositive(s: string)
    requires s != "" && (forall i | 0 <= i < |s| :: IsDigit(s[i])) && s[0] != '0'
    ensures DecimalValue(s) > 0
    decreases |s|
  {
    if |s| == 1 {
    } else {
      DecimalPositive(s[..|s| - 1]);
    }
  }

  /** A number has one form only: digits that read as n and do not start with a needless zero are its decimal form. */
  lemma {:induction false} DecimalIsUnique(s: string)
    requires s != "" && (forall i | 0 <= i < |s| :: IsDigit(s[i])) && (|s| > 1 ==> s[0] != '0')
    ensures s == ToDecimal(DecimalValue(s))
    decreases |s|
  {
    var init, d := s[..|s| - 1], DigitValue(s[|s| - 1]);
    assert s == init + [Digit(d)];
    DecimalSnoc(init, d);
    if |s| == 1 {
      assert DecimalValue(init) == 0;
      assert s == [Digit(d)];
    } else {
      hide DecimalValue, ToDecimal;
      DecimalIsUnique(init);
      DecimalPositive(init);
      AppendDigit(DecimalValue(init), d);
    }
  }

  lemma AppendDigit(n: nat, d: nat)
    requires n > 0 && d < 10
    ensures ToDecimal(10 * n + d) == ToDecimal(n) + [Digit(d)]
  {
    assert (10 * n + d) / 10 == n && (10 * n + d) % 10 == d;
  }

  lemma {:induction false} DigitPrefixOfConcat(s: string, rest: string)
    requires forall i | 0 <= i < |s| :: IsDigit(s[i])
    requires rest == [] || !IsDigit(rest[0])
    ensures DigitPrefix(s + rest) == |s|
  {
    if s == [] {
      assert s + rest == rest;
    } else {
      DigitPrefixOfConcat(s[1..], rest);
      assert (s + rest)[1..] == s[1..] + rest;
    }
  }

  // ------------------------------------------------------------ printing

  /** A decimal number and the text after it. */
  function Field(n: nat, after: string): string {
    ToDecimal(n) + after
  }

  function ToStringCompact(msg: MessageFormat): string {
    "msg { " + (Field(msg.messageSize, ", ") + (Field(msg.messageType, ", ")
    + (Field(msg.messageId, ", ") + Field(msg.messageData, " }"))))
  }

  function Line(key: nat, msg: MessageFormat): string {
    "[" + (Field(key, "] = ") + (ToStringCompact(msg) + "\n"))
  }

  /** In-order traversal. */
  function Print<N>(t: Tree<N, MessageFormat>): string {
    match t
    case Leaf => ""
    case Branch(l, _, k, v, r) => Print(l) + Line(k, v) + Print(r)
  }

  function JoinLines(lines: seq<string>): string {
    if lines == [] then "" else lines[0] + JoinLines(lines[1..])
  }

  function Lines(es: seq<(nat, MessageFormat)>): seq<string> {
    seq(|es|, i requires 0 <= i < |es| => Line(es[i].0, es[i].1))
  }

  lemma {:induction false} JoinLinesConcat(xs: seq<string>, ys: seq<string>)
    ensures JoinLines(xs + ys) == JoinLines(xs) + JoinLines(ys)
  {
    if xs == [] {
      assert xs + ys == ys;
    } else {
      JoinLinesConcat(xs[1..], ys);
      assert (xs + ys)[1..] == xs[1..] + ys;
      Assoc(xs[0], JoinLines(xs[1..]), JoinLines(ys));
    }
  }

  lemma JoinFirst<V>(l: map<nat, V>, k: nat, v: V, r: map<nat, V>)
    requires AllBelow(l.Keys, k) && AllAbove(r.Keys, k) && l.Keys != {}
    ensures var m, j := Join(l, k, v, r), Min(l.Keys);
            m.Keys != {} && Min(m.Keys) == j && m[j] == l[j] && m - {j} == Join(l - {j}, k, v, r)
  {
  }

  lemma KeysNotEmpty<V>(m: map<nat, V>)
    requires |m| != 0
    ensures m.Keys != {}
  {
    assert |m| == |m.Keys|;
  }

  lemma JoinEmpty<V>(k: nat, v: V, r: map<nat, V>)
    requires AllAbove(r.Keys, k)
    ensures var m := Join(map[], k, v, r);
            m.Keys != {} && Min(m.Keys) == k && m[k] == v && m - {k} == r
  {
  }

  lemma EntriesOfJoinEmpty<V>(k: nat, v: V, r: map<nat, V>)
    requires AllAbove(r.Keys, k)
    ensures Entries(Join(map[], k, v, r)) == [(k, v)] + Entries(r)
  {
    JoinEmpty(k, v, r);
    EntriesUnfold(Join(map[], k, v, r));
  }

  lemma {:induction false} EntriesOfJoin<V>(l: map<nat, V>, k: nat, v: V, r: map<nat, V>)
    requires AllBelow(l.Keys, k) && AllAbove(r.Keys, k)
    ensures Entries(Join(l, k, v, r)) == Entries(l) + [(k, v)] + Entries(r)
    decreases |l|
  {
    if |l| == 0 {
      EntriesOfJoinEmpty(k, v, r);
    } else {
      KeysNotEmpty(l);
      var rest := l - {Min(l.Keys)};
      SizeAfterRemove(l, Min(l.Keys));
      EntriesOfJoin(rest, k, v, r);
      EntriesOfJoinStep(l, k, v, r);
    }
  }

  lemma EntriesOfJoinStep<V>(l: map<nat, V>, k: nat, v: V, r: map<nat, V>)
    requires AllBelow(l.Keys, k) && AllAbove(r.Keys, k) && l.Keys != {}
    requires Entries(Join(l - {Min(l.Keys)}, k, v, r)) == Entries(l - {Min(l.Keys)}) + [(k, v)] + Entries(r)
    ensures Entries(Join(l, k, v, r)) == Entries(l) + [(k, v)] + Entries(r)
  {
    JoinFirst(l, k, v, r);
    var m, j := Join(l, k, v, r), Min(l.Keys);
    EntriesUnfold(m);
    EntriesUnfold(l);
    ConsAround((j, l[j]), Entries(l - {j}), (k, v), Entries(r));
  }

  lemma ConsAround<T>(x: T, xs: seq<T>, y: T, ys: seq<T>)
    ensures [x] + (xs + [y] + ys) == [x] + xs + [y] + ys
  {
  }

  lemma EntriesUnfold<V>(m: map<nat, V>)
    requires m != map[]
    ensures m.Keys != {}
    ensures Entries(m) == [(Min(m.Keys), m[Min(m.Keys)])] + Entries(m - {Min(m.Keys)})
  {
    assert m.Keys != {};
    assert |m| == |m.Keys|;
  }

  /** The text lists the entries of the map in key order, whatever the shape of the tree. */
  lemma {:induction false} PrintIsCanonical<N>(t: Tree<N, MessageFormat>)
    requires Sorted(t)
    ensures Print(t) == JoinLines(Lines(Entries(ToMap(t))))
  {
    match t
    case Leaf =>
    case Branch(l, _, k, v, r) =>
      PrintIsCanonical(l);
      PrintIsCanonical(r);
      var el, er, line := Entries(ToMap(l)), Entries(ToMap(r)), Line(k, v);
      EntriesOfJoin(ToMap(l), k, v, ToMap(r));
      LinesAround(el, (k, v), er);
      JoinLinesAround(Lines(el), line, Lines(er));
  }

  lemma LinesAround(es: seq<(nat, MessageFormat)>, e: (nat, MessageFormat), fs: seq<(nat, MessageFormat)>)
    ensures Lines(es + [e] + fs) == Lines(es) + [Line(e.0, e.1)] + Lines(fs)
  {
  }

  lemma JoinLinesAround(xs: seq<string>, line: string, ys: seq<string>)
    ensures JoinLines(xs + [line] + ys) == JoinLines(xs) + line + JoinLines(ys)
  {
    JoinLinesConcat(xs + [line], ys);
    JoinLinesConcat(xs, [line]);
    assert JoinLines([line]) == line + "";
  }

  lemma {:induction false} EntriesAreEntries<V>(m: map<nat, V>)
    ensures forall e | e in Entries(m) :: e.0 in m && m[e.0] == e.1
    decreases |m|
  {
    if m == map[] {
    } else {
      EntriesUnfold(m);
      SizeAfterRemove(m, Min(m.Keys));
      EntriesAreEntries(m - {Min(m.Keys)});
    }
  }

  lemma ConsIncreases<V>(e: (nat, V), rest: seq<(nat, V)>)
    requires forall i, j | 0 <= i < j < |rest| :: rest[i].0 < rest[j].0
    requires forall x | x in rest :: e.0 < x.0
    ensures var es := [e] + rest; forall i, j | 0 <= i < j < |es| :: es[i].0 < es[j].0
  {
  }

  /** The keys are listed in strictly increasing order. */
  lemma {:induction false} EntriesIncrease<V>(m: map<nat, V>)
    ensures forall i, j | 0 <= i < j < |Entries(m)| :: Entries(m)[i].0 < Entries(m)[j].0
    decreases |m|
  {
    if m == map[] {
    } else {
      EntriesUnfold(m);
      var k := Min(m.Keys);
      SizeAfterRemove(m, k);
      EntriesIncrease(m - {k});
      EntriesAreEntries(m - {k});
      ConsIncreases((k, m[k]), Entries(m - {k}));
    }
  }

  /** The message text, built by appending to a local string. */
  method BuildCompact(msg: MessageFormat) returns (s: string)
    ensures s == ToStringCompact(msg)
  {
    s := "msg { ";
    s := s + ToDecimal(msg.messageSize);
    s := s + ", ";
    s := s + ToDecimal(msg.messageType);
    s := s + ", ";
    s := s + ToDecimal(msg.messageId);
    s := s + ", ";
    s := s + ToDecimal(msg.messageData);
    s := s + " }";
    AssocFields("msg { ", ToDecimal(msg.messageSize), ToDecimal(msg.messageType), ToDecimal(msg.messageId), ToDecimal(msg.messageData));
  }

  method BuildLine(key: nat, msg: MessageFormat) returns (s: string)
    ensures s == Line(key, msg)
  {
    s := "[";
    s := s + ToDecimal(key);
    s := s + "] = ";
    var text := BuildCompact(msg);
    s := s + text;
    s := s + "\n";
    AssocLine("[", ToDecimal(key), text);
  }

  /** A line of the listing, piece by piece. */
  lemma LineText(key: nat, msg: MessageFormat)
    ensures Line(key, msg)
         == "[" + ToDecimal(key) + "] = " + "msg { " + ToDecimal(msg.messageSize) + ", " + ToDecimal(msg.messageType)
            + ", " + ToDecimal(msg.messageId) + ", " + ToDecimal(msg.messageData) + " }" + "\n"
  {
    var size, kind, id, data := ToDecimal(msg.messageSize), ToDecimal(msg.messageType), ToDecimal(msg.messageId), ToDecimal(msg.messageData);
    AssocFields("msg { ", size, kind, id, data);
    AssocLine("[", ToDecimal(key), ToStringCompact(msg));
    AssocMany("[" + ToDecimal(key) + "] = ", "msg { ", size, ", ", kind, id, data, " }");
  }

  lemma AssocMany(h: string, open: string, a: string, comma: string, b: string, c: string, d: string, close: string)
    ensures h + (open + a + comma + b + comma + c + comma + d + close)
         == h + open + a + comma + b + comma + c + comma + d + close
  {
  }

  lemma AssocLine(h: string, a: string, b: string)
    ensures h + a + "] = " + b + "\n" == h + ((a + "] = ") + (b + "\n"))
  {
  }

  lemma AssocFields(h: string, a: string, b: string, c: string, d: string)
    ensures h + a + ", " + b + ", " + c + ", " + d + " }" == h + ((a + ", ") + ((b + ", ") + ((c + ", ") + (d + " }"))))
  {
  }

  // ------------------------------------------------------------ parsing

  function Expect(s: string, literal: string): (r: Option<string>)
    ensures r.Some? ==> |r.value| + |literal| == |s|
  {
    if |literal| <= |s| && s[..|literal|] == literal then Some(s[|literal|..]) else None
  }

  function ParseNat(s: string): (r: Option<(nat, string)>)
    ensures r.Some? ==> |r.value.1| < |s|
  {
    var n := DigitPrefix(s);
    if n == 0 then None else Some((DecimalValue(s[..n]), s[n..]))
  }

  function ParseField(s: string, after: string): (r: Option<(nat, string)>)
    ensures r.Some? ==> |r.value.1| < |s|
  {
    var (n, s0) :- ParseNat(s);
    var s1 :- Expect(s0, after);
    Some((n, s1))
  }

  function ParseCompact(s: string): (r: Option<(MessageFormat, string)>)
    ensures r.Some? ==> |r.value.1| < |s|
  {
    var s0 :- Expect(s, "msg { ");
    var (size, s1) :- ParseField(s0, ", ");
    var (kind, s2) :- ParseField(s1, ", ");
    var (id, s3) :- ParseField(s2, ", ");
    var (data, s4) :- ParseField(s3, " }");
    if size < 0x1_0000 && kind < 0x100 && id < TWO_TO_THE_64 && data < TWO_TO_THE_64
    then Some((MessageFormat(size, kind, id, data), s4)) else None
  }

  function ParseLine(s: string): (r: Option<((nat, MessageFormat), string)>)
    ensures r.Some? ==> |r.value.1| < |s|
  {
    var s0 :- Expect(s, "[");
    var (key, s1) :- ParseField(s0, "] = ");
    var (msg, s2) :- ParseCompact(s1);
    var s3 :- Expect(s2, "\n");
    Some(((key, msg), s3))
  }

  function ParseEntries(s: string): Option<seq<(nat, MessageFormat)>>
    decreases |s|
  {
    if s == "" then Some([]) else
    var (e, rest) :- ParseLine(s);
    var es :- ParseEntries(rest);
    Some([e] + es)
  }

  function FromEntries<V>(es: seq<(nat, V)>): map<nat, V> {
    if es == [] then map[] else FromEntries(es[1..])[es[0].0 := es[0].1]
  }

  lemma ExpectLiteral(literal: string, rest: string)
    ensures Expect(literal + rest, literal) == Some(rest)
  {
    assert (literal + rest)[..|literal|] == literal;
    assert (literal + rest)[|literal|..] == rest;
  }

  lemma ParseDecimal(n: nat, rest: string)
    requires rest == [] || !IsDigit(rest[0])
    ensures ParseNat(ToDecimal(n) + rest) == Some((n, rest))
  {
    DecimalRoundTrip(n);
    DigitPrefixOfConcat(ToDecimal(n), rest);
    var s := ToDecimal(n) + rest;
    assert s[..|ToDecimal(n)|] == ToDecimal(n) && s[|ToDecimal(n)|..] == rest;
  }

  lemma Assoc(a: string, b: string, c: string)
    ensures (a + b) + c == a + (b + c)
  {
  }

  lemma ParsePrintedField(n: nat, after: string, rest: string)
    requires after != [] && !IsDigit(after[0])
    ensures ParseField(Field(n, after) + rest, after) == Some((n, rest))
  {
    Assoc(ToDecimal(n), after, rest);
    ParseDecimal(n, after + rest);
    ExpectLiteral(after, rest);
  }

  lemma ParseCompactOfPrinted(msg: MessageFormat, rest: string)
    ensures ParseCompact(ToStringCompact(msg) + rest) == Some((msg, rest))
  {
    var f1, f2 := Field(msg.messageSize, ", "), Field(msg.messageType, ", ");
    var f3, f4 := Field(msg.messageId, ", "), Field(msg.messageData, " }");
    Assoc("msg { ", f1 + (f2 + (f3 + f4)), rest);
    Assoc(f1, f2 + (f3 + f4), rest);
    Assoc(f2, f3 + f4, rest);
    Assoc(f3, f4, rest);
    ExpectLiteral("msg { ", f1 + (f2 + (f3 + (f4 + rest))));
    ParsePrintedField(msg.messageSize, ", ", f2 + (f3 + (f4 + rest)));
    ParsePrintedField(msg.messageType, ", ", f3 + (f4 + rest));
    ParsePrintedField(msg.messageId, ", ", f4 + rest);
    ParsePrintedField(msg.messageData, " }", rest);
  }

  lemma ParseLineOfPrinted(key: nat, msg: MessageFormat, rest: string)
    ensures ParseLine(Line(key, msg) + rest) == Some(((key, msg), rest))
  {
    var f, c := Field(key, "] = "), ToStringCompact(msg);
    Assoc("[", f + (c + "\n"), rest);
    Assoc(f, c + "\n", rest);
    Assoc(c, "\n", rest);
    ExpectLiteral("[", f + (c + ("\n" + rest)));
    ParsePrintedField(key, "] = ", c + ("\n" + rest));
    ParseCompactOfPrinted(msg, "\n" + rest);
    ExpectLiteral("\n", rest);
  }

  lemma ParseFirstLine(line: string, e: (nat, MessageFormat), rest: string, es: seq<(nat, MessageFormat)>)
    requires ParseLine(line + rest) == Some((e, rest)) && ParseEntries(rest) == Some(es)
    ensures ParseEntries(line + rest) == Some([e] + es)
  {
    assert line + rest != "";
  }

  lemma LinesUnfold(es: seq<(nat, MessageFormat)>)
    requires es != []
    ensures JoinLines(Lines(es)) == Line(es[0].0, es[0].1) + JoinLines(Lines(es[1..]))
  {
    assert Lines(es)[1..] == Lines(es[1..]);
  }

  lemma {:induction false} ParseOfPrinted(es: seq<(nat, MessageFormat)>, text: string)
    requires text == JoinLines(Lines(es))
    ensures ParseEntries(text) == Some(es)
  {
    if es == [] {
    } else {
      var e, tail := es[0], es[1..];
      assert es == [e] + tail;
      var line, rest := Line(e.0, e.1), JoinLines(Lines(tail));
      ParseOfPrinted(tail, rest);
      LinesUnfold(es);
      ParseLineOfPrinted(e.0, e.1, rest);
      ParseFirstLine(line, e, rest, tail);
    }
  }

  lemma {:induction false} EntriesDetermineMap<V>(m: map<nat, V>)
    ensures FromEntries(Entries(m)) == m
    decreases |m|
  {
    if m == map[] {
    } else {
      EntriesUnfold(m);
      var k := Min(m.Keys);
      SizeAfterRemove(m, k);
      EntriesDetermineMap(m - {k});
      assert Entries(m)[1..] == Entries(m - {k});
      assert (m - {k})[k := m[k]] == m;
    }
  }

  /** Reading the printed text back gives exactly the map. */
  lemma PrintRoundTrip<N>(t: Tree<N, MessageFormat>)
    requires Sorted(t)
    ensures ParseEntries(Print(t)).Some?
    ensures FromEntries(ParseEntries(Print(t)).value) == ToMap(t)
  {
    PrintIsCanonical(t);
    ParseOfPrinted(Entries(ToMap(t)), Print(t));
    EntriesDetermineMap(ToMap(t));
  }

  /** Two trees print alike exactly when they hold the same map. */
  lemma PrintSeparatesMaps<N, M>(t: Tree<N, MessageFormat>, u: Tree<M, MessageFormat>)
    requires Sorted(t) && Sorted(u)
    ensures Print(t) == Print(u) <==> ToMap(t) == ToMap(u)
  {
    PrintRoundTrip(t);
    PrintRoundTrip(u);
    PrintIsCanonical(t);
    PrintIsCanonical(u);
  }
}
