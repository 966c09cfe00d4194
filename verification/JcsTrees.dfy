/**
  `_jcs` determines its value: equal outputs mean equal trees of maps, and equal
  trees have equal outputs, in whatever order their dicts were filled.
 */
module JcsTrees {
  import opened Basics
  import opened JsonEscape
  import Decimal
  import opened Sorting
  import opened Jcs

  // ----- lists of parts

  /** The parts after the first one, with their commas, up to the closer. */
  function Tail(parts: seq<string>, close: string): string {
    if parts == [] then close else "," + (parts[0] + Tail(parts[1..], close))
  }

  lemma {:induction false} JoinIsTail(parts: seq<string>, close: string)
    requires parts != []
    ensures Join(parts) + close == parts[0] + Tail(parts[1..], close)
    decreases |parts|
  {
    if |parts| > 1 {
      JoinIsTail(parts[1..], close);
      assert parts[0] + ("," + Join(parts[1..])) + close == parts[0] + ("," + (Join(parts[1..]) + close));
    }
  }

  predicate Stops(rest: string) { rest == "" || !IsDigit(rest[0]) }

  lemma TailStops(parts: seq<string>, close: string, rest: string)
    requires close == "]" || close == "}"
    ensures Stops(Tail(parts, close) + rest)
  {
    if parts != [] {
      assert (Tail(parts, close) + rest)[0] == ',';
    } else {
      assert (close + rest)[0] == close[0];
    }
  }

  // ----- the first character tells the kind

  predicate Kind(v: Value, c: char) {
    match v
    case Null => c == 'n'
    case Bool(b) => c == if b then 't' else 'f'
    case Int(_) => c == '-' || IsDigit(c)
    case Text(_) => c == '"'
    case List(_) => c == '['
    case Dict(_) => c == '{'
    case Other => false
  }

  lemma PrintKind(v: Value, x: string)
    requires Print(v).Some?
    ensures var p := Print(v).value; p != "" && Kind(v, (p + x)[0])
  {
    hide PrintAll, PrintEntries, EscapeBody, Join, SortEntries;
  }

  lemma KindsDiffer(a: Value, b: Value, c: char)
    requires Kind(a, c) && Kind(b, c)
    ensures a.Null? <==> b.Null?
    ensures a.Bool? <==> b.Bool?
    ensures a.Int? <==> b.Int?
    ensures a.Text? <==> b.Text?
    ensures a.List? <==> b.List?
    ensures a.Dict? <==> b.Dict?
    ensures a.Bool? ==> a == b
  {
  }

  // ----- equal outputs, equal trees

  /** Printed values, with anything after them that is no digit, agree only if they are the same. */
  lemma {:induction false} PrintDelimits(a: Value, x: string, b: Value, y: string)
    requires Wf(a) && Wf(b) && Print(a).Some? && Print(b).Some? && Stops(x) && Stops(y)
    requires Print(a).value + x == Print(b).value + y
    ensures Same(a, b) && x == y
    decreases a
  {
    hide PrintAll, PrintEntries, EscapeString, Join, SortEntries, Decimal.OfInt, Wf, Kind;
    var p, q := Print(a).value, Print(b).value;
    PrintKind(a, x);
    PrintKind(b, y);
    KindsDiffer(a, b, (p + x)[0]);
    match a {
      case Null => Cut(p, x, q, y);
      case Bool(_) => Cut(p, x, q, y);
      case Int(i) => Decimal.IntDelimited(i, x, b.i, y);
      case Text(s) => EscapedSelfDelimiting(s, x, b.s, y);
      case List(items) => ListDelimits(a, x, b, y);
      case Dict(entries) => DictDelimits(a, x, b, y);
    }
  }

  lemma Cut(p: string, x: string, q: string, y: string)
    requires p + x == q + y && |p| == |q|
    ensures x == y
  {
    assert x == (p + x)[|p|..] == (q + y)[|q|..] == y;
  }

  lemma ListText(v: Value, x: string)
    requires v.List? && Print(v).Some?
    ensures PrintAll(v.items).Some?
    ensures Print(v).value + x == "[" + (ListBody(PrintAll(v.items).value, "]") + x)
  {
    hide PrintAll;
    var parts := PrintAll(v.items).value;
    if parts != [] {
      JoinIsTail(parts, "]");
    }
    assert "" + "]" == "]";
  }

  /** `parts` joined and closed. */
  function ListBody(parts: seq<string>, close: string): string {
    if parts == [] then close else parts[0] + Tail(parts[1..], close)
  }

  lemma ListDelimits(a: Value, x: string, b: Value, y: string)
    requires a.List? && b.List? && Wf(a) && Wf(b) && Print(a).Some? && Print(b).Some?
    requires Print(a).value + x == Print(b).value + y
    ensures Same(a, b) && x == y
    decreases a, 0
  {
    hide Print, PrintAll, ListBody;
    ListText(a, x);
    ListText(b, y);
    Cut1("[", ListBody(PrintAll(a.items).value, "]") + x, ListBody(PrintAll(b.items).value, "]") + y);
    BodyDelimits(a.items, x, b.items, y);
  }

  lemma Cut1(head: string, s: string, t: string)
    requires head + s == head + t
    ensures s == t
  {
    Cut(head, s, head, t);
  }

  /** `[` and a value's first character never read as the closer. */
  lemma NotCloser(v: Value, x: string, close: string, y: string)
    requires Print(v).Some? && (close == "]" || close == "}")
    ensures Print(v).value + x != close + y
  {
    hide Print;
    PrintKind(v, x);
    assert (close + y)[0] == close[0];
  }

  lemma BodyDelimits(items: seq<Value>, x: string, others: seq<Value>, y: string)
    requires (forall i | 0 <= i < |items| :: Wf(items[i])) && (forall i | 0 <= i < |others| :: Wf(others[i]))
    requires PrintAll(items).Some? && PrintAll(others).Some?
    requires ListBody(PrintAll(items).value, "]") + x == ListBody(PrintAll(others).value, "]") + y
    ensures |items| == |others| && (forall i | 0 <= i < |items| :: Same(items[i], others[i])) && x == y
    decreases items, 1
  {
    hide Print, Wf, Same, Tail;
    var ps, qs := PrintAll(items).value, PrintAll(others).value;
    if items == [] && others == [] {
      Cut("]", x, "]", y);
    } else if items == [] {
      Regroup(qs[0], Tail(qs[1..], "]"), y);
      NotCloser(others[0], Tail(qs[1..], "]") + y, "]", x);
    } else if others == [] {
      Regroup(ps[0], Tail(ps[1..], "]"), x);
      NotCloser(items[0], Tail(ps[1..], "]") + x, "]", y);
    } else {
      Regroup(ps[0], Tail(ps[1..], "]"), x);
      Regroup(qs[0], Tail(qs[1..], "]"), y);
      TailStops(ps[1..], "]", x);
      TailStops(qs[1..], "]", y);
      PrintDelimits(items[0], Tail(ps[1..], "]") + x, others[0], Tail(qs[1..], "]") + y);
      TailDelimits(items[1..], x, others[1..], y);
      assert forall i | 1 <= i < |items| :: items[i] == items[1..][i - 1] && others[i] == others[1..][i - 1];
    }
  }

  lemma Regroup(p: string, t: string, x: string)
    ensures (p + t) + x == p + (t + x)
  {
  }

  lemma {:induction false} TailDelimits(items: seq<Value>, x: string, others: seq<Value>, y: string)
    requires (forall i | 0 <= i < |items| :: Wf(items[i])) && (forall i | 0 <= i < |others| :: Wf(others[i]))
    requires PrintAll(items).Some? && PrintAll(others).Some?
    requires Tail(PrintAll(items).value, "]") + x == Tail(PrintAll(others).value, "]") + y
    ensures |items| == |others| && (forall i | 0 <= i < |items| :: Same(items[i], others[i])) && x == y
    decreases items, 2
  {
    hide Print, PrintAll, Wf, Same;
    var ps, qs := PrintAll(items).value, PrintAll(others).value;
    TailHead(ps, "]", x);
    TailHead(qs, "]", y);
    if items == [] {
      Cut("]", x, "]", y);
    } else {
      Cut1(",", ListBody(ps, "]") + x, ListBody(qs, "]") + y);
      BodyDelimits(items, x, others, y);
    }
  }

  lemma TailHead(parts: seq<string>, close: string, x: string)
    requires close == "]" || close == "}"
    ensures if parts == [] then Tail(parts, close) + x == close + x && (Tail(parts, close) + x)[0] != ','
      else Tail(parts, close) + x == "," + (ListBody(parts, close) + x) && (Tail(parts, close) + x)[0] == ','
  {
    if parts != [] {
      assert Tail(parts, close) == "," + ListBody(parts, close);
    }
  }

  // ----- dicts

  type Entries = seq<(string, Value)>

  ghost predicate Inside(es: Entries, parent: Value) { forall e | e in es :: e.1 < parent }

  predicate WfEntries(es: Entries) { forall i | 0 <= i < |es| :: Wf(es[i].1) }

  lemma DictText(v: Value, x: string)
    requires v.Dict? && Print(v).Some?
    ensures Inside(SortEntries(v.entries), v) && PrintEntries(SortEntries(v.entries), v).Some?
    ensures Print(v).value + x == "{" + (ListBody(PrintEntries(SortEntries(v.entries), v).value, "}") + x)
  {
    hide PrintEntries, SortEntries;
    var parts := PrintEntries(SortEntries(v.entries), v).value;
    if parts != [] {
      JoinIsTail(parts, "}");
    }
    assert "" + "}" == "}";
  }

  lemma EntryText(es: Entries, parent: Value, x: string)
    requires es != [] && Inside(es, parent) && PrintEntries(es, parent).Some?
    ensures Inside(es[1..], parent) && PrintEntries(es[1..], parent).Some? && Print(es[0].1).Some?
    ensures ListBody(PrintEntries(es, parent).value, "}") + x ==
      EscapeString(es[0].0) + (":" + (Print(es[0].1).value + (Tail(PrintEntries(es[1..], parent).value, "}") + x)))
  {
    hide Print, EscapeString, Tail;
    assert es[0] in es;
    assert PrintEntries(es, parent).value[1..] == PrintEntries(es[1..], parent).value;
  }

  lemma NotBrace(name: string, rest: string, y: string)
    ensures EscapeString(name) + rest != "}" + y
  {
    assert (EscapeString(name) + rest)[0] == '"';
    assert ("}" + y)[0] == '}';
  }

  lemma {:induction false} EntriesDelimit(es: Entries, a: Value, x: string, fs: Entries, b: Value, y: string)
    requires Inside(es, a) && Inside(fs, b) && WfEntries(es) && WfEntries(fs)
    requires PrintEntries(es, a).Some? && PrintEntries(fs, b).Some?
    requires ListBody(PrintEntries(es, a).value, "}") + x == ListBody(PrintEntries(fs, b).value, "}") + y
    ensures Alike(es, fs, Same) && x == y
    decreases a, |es|, 1
  {
    hide Print, PrintEntries, EscapeString, Tail, Wf, Same;
    if es != [] {
      EntryText(es, a, x);
    }
    if fs != [] {
      EntryText(fs, b, y);
    }
    if es == [] && fs == [] {
      Cut("}", x, "}", y);
    } else if es == [] {
      NotBrace(fs[0].0, ":" + (Print(fs[0].1).value + (Tail(PrintEntries(fs[1..], b).value, "}") + y)), x);
    } else if fs == [] {
      NotBrace(es[0].0, ":" + (Print(es[0].1).value + (Tail(PrintEntries(es[1..], a).value, "}") + x)), y);
    } else {
      assert es[0] in es;
      var s, t := Tail(PrintEntries(es[1..], a).value, "}") + x, Tail(PrintEntries(fs[1..], b).value, "}") + y;
      EscapedSelfDelimiting(es[0].0, ":" + (Print(es[0].1).value + s), fs[0].0, ":" + (Print(fs[0].1).value + t));
      Cut1(":", Print(es[0].1).value + s, Print(fs[0].1).value + t);
      TailStops(PrintEntries(es[1..], a).value, "}", x);
      TailStops(PrintEntries(fs[1..], b).value, "}", y);
      PrintDelimits(es[0].1, s, fs[0].1, t);
      EntryTailsDelimit(es[1..], a, x, fs[1..], b, y);
      AlikeCons(es, fs, Same);
    }
  }

  lemma {:induction false} EntryTailsDelimit(es: Entries, a: Value, x: string, fs: Entries, b: Value, y: string)
    requires Inside(es, a) && Inside(fs, b) && WfEntries(es) && WfEntries(fs)
    requires PrintEntries(es, a).Some? && PrintEntries(fs, b).Some?
    requires Tail(PrintEntries(es, a).value, "}") + x == Tail(PrintEntries(fs, b).value, "}") + y
    ensures Alike(es, fs, Same) && x == y
    decreases a, |es|, 2
  {
    hide Print, PrintEntries, Wf, Same;
    var ps, qs := PrintEntries(es, a).value, PrintEntries(fs, b).value;
    TailHead(ps, "}", x);
    TailHead(qs, "}", y);
    if es == [] {
      Cut("}", x, "}", y);
    } else {
      Cut1(",", ListBody(ps, "}") + x, ListBody(qs, "}") + y);
      EntriesDelimit(es, a, x, fs, b, y);
    }
  }

  lemma SortedWf(entries: Entries)
    requires WfEntries(entries)
    ensures WfEntries(SortEntries(entries))
  {
    hide SortEntries, Wf;
    var es := SortEntries(entries);
    forall i | 0 <= i < |es|
      ensures Wf(es[i].1)
    {
      assert es[i] in entries;
    }
  }

  lemma NamesDistinct(v: Value)
    requires v.Dict? && Wf(v)
    ensures Distinct(v.entries, EntryKey)
  {
    hide Utf16;
    forall i, j | 0 <= i < j < |v.entries|
      ensures EntryKey(v.entries[i]) != EntryKey(v.entries[j])
    {
      if Utf16(v.entries[i].0) == Utf16(v.entries[j].0) {
        Utf16Injective(v.entries[i].0, v.entries[j].0);
      }
    }
  }

  lemma NamedByKey(es: Entries, fs: Entries)
    ensures KeyedByName(es, fs, EntryKey)
  {
    hide Utf16;
    forall e, f | e in es && f in fs && EntryKey(e) == EntryKey(f)
      ensures e.0 == f.0
    {
      Utf16Injective(e.0, f.0);
    }
  }

  lemma SameIsTwins(a: Value, b: Value)
    requires a.Dict? && b.Dict?
    ensures Same(a, b) <==> Twins(a.entries, b.entries, Same)
  {
    hide HasName;
    forall e | e in a.entries
      ensures Paired(e.0, e.1, b.entries) <==> HasTwin(e.0, e.1, b.entries, Same)
    {
      PairedIsTwin(e.0, e.1, b.entries);
    }
  }

  lemma PairedIsTwin(name: string, v: Value, entries: Entries)
    ensures Paired(name, v, entries) <==> HasTwin(name, v, entries, Same)
  {
    hide Same;
  }

  /** Dicts are the same exactly when their sorted entries are alike. */
  lemma SameIsAlike(a: Value, b: Value)
    requires a.Dict? && b.Dict? && Wf(a) && Wf(b)
    ensures Same(a, b) <==> Alike(SortEntries(a.entries), SortEntries(b.entries), Same)
  {
    hide Same, Wf, Utf16, Twins, Alike;
    NamesDistinct(a);
    NamesDistinct(b);
    NamedByKey(a.entries, b.entries);
    SameIsTwins(a, b);
    TwinsAlike(a.entries, b.entries, EntryKey, Same);
  }

  lemma DictDelimits(a: Value, x: string, b: Value, y: string)
    requires a.Dict? && b.Dict? && Wf(a) && Wf(b) && Print(a).Some? && Print(b).Some?
    requires Print(a).value + x == Print(b).value + y
    ensures Same(a, b) && x == y
    decreases a, |a.entries| + 1
  {
    hide Print, PrintEntries, SortEntries, ListBody, Same, Wf;
    DictText(a, x);
    DictText(b, y);
    var es, fs := SortEntries(a.entries), SortEntries(b.entries);
    EntriesWf(a);
    EntriesWf(b);
    SortedWf(a.entries);
    SortedWf(b.entries);
    Cut1("{", ListBody(PrintEntries(es, a).value, "}") + x, ListBody(PrintEntries(fs, b).value, "}") + y);
    EntriesDelimit(es, a, x, fs, b, y);
    SameIsAlike(a, b);
  }

  // ----- equal trees, equal outputs

  lemma {:induction false} SamePrints(a: Value, b: Value)
    requires Wf(a) && Wf(b) && Same(a, b)
    ensures Print(a) == Print(b)
    decreases a
  {
    hide PrintAll, PrintEntries, SortEntries, Join, Wf, EscapeString;
    match a {
      case List(items) =>
        ItemsWf(a);
        ItemsWf(b);
        SamePrintsAll(items, b.items);
      case Dict(entries) =>
        SameIsAlike(a, b);
        EntriesWf(a);
        EntriesWf(b);
        SortedWf(entries);
        SortedWf(b.entries);
        AlikePrints(SortEntries(entries), a, SortEntries(b.entries), b);
      case _ =>
    }
  }

  lemma ItemsWf(v: Value)
    requires v.List? && Wf(v)
    ensures forall i | 0 <= i < |v.items| :: Wf(v.items[i])
  {
  }

  lemma EntriesWf(v: Value)
    requires v.Dict? && Wf(v)
    ensures WfEntries(v.entries)
  {
  }

  lemma {:induction false} SamePrintsAll(items: seq<Value>, others: seq<Value>)
    requires |items| == |others|
    requires forall i | 0 <= i < |items| :: Wf(items[i]) && Wf(others[i]) && Same(items[i], others[i])
    ensures PrintAll(items) == PrintAll(others)
    decreases items
  {
    hide Print, Wf, Same;
    if items != [] {
      SamePrints(items[0], others[0]);
      assert forall i | 0 <= i < |items| - 1 :: items[1..][i] == items[i + 1] && others[1..][i] == others[i + 1];
      SamePrintsAll(items[1..], others[1..]);
    }
  }

  lemma {:induction false} AlikePrints(es: Entries, a: Value, fs: Entries, b: Value)
    requires Inside(es, a) && Inside(fs, b) && WfEntries(es) && WfEntries(fs) && Alike(es, fs, Same)
    ensures PrintEntries(es, a) == PrintEntries(fs, b)
    decreases a, |es|
  {
    hide Print, Wf, Same, EscapeString, PrintEntries;
    EntriesUnfold(es, a);
    EntriesUnfold(fs, b);
    if es != [] {
      assert es[0] in es && fs[0] in fs;
      SamePrints(es[0].1, fs[0].1);
      assert forall i | 0 <= i < |es| - 1 :: es[1..][i] == es[i + 1] && fs[1..][i] == fs[i + 1];
      AlikePrints(es[1..], a, fs[1..], b);
    }
  }

  lemma EntriesUnfold(es: Entries, parent: Value)
    requires Inside(es, parent)
    ensures PrintEntries(es, parent) ==
      if es == [] then Some([])
      else
        var first, rest := Print(es[0].1), PrintEntries(es[1..], parent);
        if first.None? || rest.None? then None else Some([EscapeString(es[0].0) + (":" + first.value)] + rest.value)
  {
    hide Print, EscapeString;
    if es != [] {
      assert es[0] in es;
    }
  }

  /** `_jcs` is exactly the tree of maps: the same output means the same value, and only that. */
  lemma PrintIff(a: Value, b: Value)
    requires Wf(a) && Wf(b) && Print(a).Some?
    ensures Print(a) == Print(b) <==> Same(a, b)
  {
    hide Wf, Same, Print;
    if Print(a) == Print(b) {
      assert Print(a).value + "" == Print(b).value + "";
      PrintDelimits(a, "", b, "");
    }
    if Same(a, b) {
      SamePrints(a, b);
    }
  }
}
