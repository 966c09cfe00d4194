/**
  What `_jcs` prints is JSON: a text of the grammar without whitespace, whose tree
  holds the value, with member names in the order of their UTF-16 code units.
 */
module JcsJson {
  import opened Basics
  import opened JsonGrammar
  import opened JsonEscape
  import opened JsonUnits
  import opened CodeUnits
  import Decimal
  import opened Sorting
  import opened Jcs
  import opened JcsTrees

  // ----- a tree writes a value

  /** The entries of a dict in the order of their names' code units. */
  ghost predicate InOrder(es: Entries, entries: Entries) {
    && SameItems(es, entries) && |es| == |entries|
    && forall i, j | 0 <= i < j < |es| :: Less(Units(es[i].0), Units(es[j].0))
  }

  ghost predicate Writes(t: Json, v: Value)
    decreases t
  {
    match v
    case Null => t == Word("null")
    case Bool(b) => t == Word(if b then "true" else "false")
    case Int(i) =>
      && t.Num? && t.n.minus == (i < 0) && t.n.fraction == "" && t.n.e == ""
      && AllDigits(t.n.whole) && Decimal.Num(t.n.whole) == if i < 0 then -i else i
    case Text(s) => t.Str? && AllUnits(t.items) == Units(s)
    case List(items) => if items == [] then t == Empty('[', "") else t.Arr? && WritesItems(t.elements, items)
    case Dict(entries) =>
      if entries == [] then t == Empty('{', "")
      else t.Obj? && exists es :: InOrder(es, entries) && WritesEntries(t.members, es)
    case Other => false
  }

  ghost predicate WritesItems(es: Elements, items: seq<Value>)
    decreases es
  {
    && items != [] && es.before == "" && es.after == "" && Writes(es.value, items[0])
    && match es.rest
       case LastElement => |items| == 1
       case MoreElements(more) => WritesItems(more, items[1..])
  }

  ghost predicate WritesEntries(ms: Members, es: Entries)
    decreases ms
  {
    var m := ms.m;
    && es != [] && m.before == "" && m.mid == "" && m.gap == "" && m.after == ""
    && AllUnits(m.key) == Units(es[0].0) && Writes(m.value, es[0].1)
    && match ms.rest
       case LastMember => |es| == 1
       case MoreMembers(more) => WritesEntries(more, es[1..])
  }

  // ----- what can be printed

  /** Integers that a double holds exactly, and nothing JSON cannot say. */
  predicate Printable(v: Value) {
    match v
    case Int(i) => -0x1F_FFFF_FFFF_FFFF <= i <= 0x1F_FFFF_FFFF_FFFF
    case List(items) => forall i | 0 <= i < |items| :: Printable(items[i])
    case Dict(entries) => forall i | 0 <= i < |entries| :: Printable(entries[i].1)
    case Other => false
    case _ => true
  }

  lemma {:induction false} PrintableIff(v: Value)
    ensures Jcs.Print(v).Some? <==> Printable(v)
    decreases v
  {
    hide PrintAll, PrintEntries, SortEntries, Join, EscapeString, Decimal.OfInt;
    match v {
      case List(items) => AllPrintable(items);
      case Dict(entries) =>
        EntriesPrintable(SortEntries(entries), v);
        SortedPrintable(entries);
      case _ =>
    }
  }

  lemma SortedPrintable(entries: Entries)
    ensures (forall i | 0 <= i < |entries| :: Printable(entries[i].1)) <==>
      forall e | e in SortEntries(entries) :: Printable(e.1)
  {
    hide SortEntries, Printable;
    assert forall i | 0 <= i < |entries| :: entries[i] in SortEntries(entries);
  }

  lemma {:induction false} AllPrintable(items: seq<Value>)
    ensures PrintAll(items).Some? <==> forall i | 0 <= i < |items| :: Printable(items[i])
    decreases items
  {
    hide Jcs.Print, Printable;
    if items != [] {
      PrintableIff(items[0]);
      AllPrintable(items[1..]);
      assert forall i | 1 <= i < |items| :: items[i] == items[1..][i - 1];
    }
  }

  lemma {:induction false} EntriesPrintable(es: Entries, parent: Value)
    requires Inside(es, parent)
    ensures PrintEntries(es, parent).Some? <==> forall e | e in es :: Printable(e.1)
    decreases parent, |es|
  {
    hide Jcs.Print, Printable, PrintEntries, EscapeString;
    EntriesUnfold(es, parent);
    if es != [] {
      assert es[0] in es;
      PrintableIff(es[0].1);
      EntriesPrintable(es[1..], parent);
      assert es == [es[0]] + es[1..];
    }
  }

  // ----- the tree

  lemma IntTree(i: int) returns (t: Json)
    ensures Legal(t) && Writes(t, Int(i)) && JsonGrammar.Print(t) == Decimal.OfInt(i)
  {
    hide Decimal.OfNat, Decimal.Num, IsDigit;
    var n: nat := if i < 0 then -i else i;
    Decimal.NumOfNat(n);
    t := Num(NumberText(i < 0, Decimal.OfNat(n), "", "", "", ""));
    assert "" + ("" + "") == "";
    assert Decimal.OfNat(n) + ("" + "") == Decimal.OfNat(n);
    ZeroAlone(n);
  }

  lemma ZeroAlone(n: nat)
    ensures Decimal.OfNat(n)[0] == '0' ==> |Decimal.OfNat(n)| == 1
    ensures AllDigits(Decimal.OfNat(n))
  {
    Decimal.NumOfNat(n);
  }

  lemma TextTree(s: string) returns (items: seq<Item>)
    ensures LegalItems(items) && AllUnits(items) == Units(s) && PrintString(items) == EscapeString(s)
  {
    hide Meaning, EscapeBody, PrintItems, LegalItem;
    items := ItemsOf(s);
    ItemsOfMean(s);
    MeaningIff(items, s);
  }

  /** What is printed is the text of a tree that writes the value. */
  lemma {:induction false} PrintIsJson(v: Value) returns (t: Json)
    requires Wf(v) && Jcs.Print(v).Some?
    ensures Legal(t) && Writes(t, v) && JsonGrammar.Print(t) == Jcs.Print(v).value
    decreases v
  {
    hide PrintAll, PrintEntries, SortEntries, EscapeString, Decimal.OfInt, Wf, LegalElements, LegalMembers, LegalItem;
    hide AllUnits, Units, WritesItems, WritesEntries, PrintString, PrintElements, PrintMembers, PrintNumber, InOrder, Join;
    match v {
      case Null => t := Word("null");
      case Bool(b) => t := Word(if b then "true" else "false");
      case Int(i) => t := IntTree(i);
      case Text(s) =>
        var items := TextTree(s);
        t := Str(items);
      case List(items) => t := ListTree(v);
      case Dict(entries) => t := DictTree(v);
    }
  }

  lemma ListTree(v: Value) returns (t: Json)
    requires v.List? && Wf(v) && Jcs.Print(v).Some?
    ensures Legal(t) && Writes(t, v) && JsonGrammar.Print(t) == Jcs.Print(v).value
    decreases v, 0
  {
    hide Jcs.Print, PrintAll, ListBody, LegalElements, WritesItems, PrintElements;
    ListText(v, "");
    ItemsWf(v);
    assert Jcs.Print(v).value + "" == Jcs.Print(v).value;
    var body := ListBody(PrintAll(v.items).value, "]");
    assert body + "" == body;
    if v.items == [] {
      NothingListed("]");
      t := Empty('[', "");
    } else {
      var es := ItemsTree(v.items);
      t := Arr(es);
    }
  }

  lemma NothingListed(close: string)
    ensures PrintAll([]) == Some([]) && ListBody([], close) == close
    ensures "[" + "]" == ['['] + ("" + [']']) && "{" + "}" == ['{'] + ("" + ['}'])
  {
  }

  lemma ItemsStep(items: seq<Value>)
    requires items != [] && PrintAll(items).Some?
    ensures Jcs.Print(items[0]).Some? && PrintAll(items[1..]).Some?
    ensures PrintAll(items).value == [Jcs.Print(items[0]).value] + PrintAll(items[1..]).value
  {
    hide Jcs.Print;
  }

  lemma BodyStep(first: string, rest: seq<string>, close: string)
    ensures ListBody([first] + rest, close) == first + if rest == [] then close else "," + ListBody(rest, close)
  {
    assert ([first] + rest)[1..] == rest;
  }

  lemma {:induction false} ItemsTree(items: seq<Value>) returns (es: Elements)
    requires items != [] && (forall i | 0 <= i < |items| :: Wf(items[i])) && PrintAll(items).Some?
    ensures LegalElements(es) && WritesItems(es, items)
    ensures PrintElements(es) == ListBody(PrintAll(items).value, "]")
    decreases items, 1
  {
    hide Jcs.Print, PrintAll, ListBody, Wf, Legal, Writes;
    ItemsStep(items);
    var t := PrintIsJson(items[0]);
    var p, rest := Jcs.Print(items[0]).value, PrintAll(items[1..]).value;
    BodyStep(p, rest, "]");
    if |items| == 1 {
      NothingListed("]");
      assert items[1..] == [];
      es := Elements("", t, "", LastElement);
      assert "" + (p + ("" + "]")) == p + "]";
    } else {
      var more := ItemsTree(items[1..]);
      es := Elements("", t, "", MoreElements(more));
      var tail := "," + PrintElements(more);
      assert "" + (p + ("" + tail)) == p + tail;
    }
  }

  lemma SortedInOrder(v: Value)
    requires v.Dict? && Wf(v)
    ensures InOrder(SortEntries(v.entries), v.entries)
  {
    hide Utf16, Units, Less, Wf;
    NamesDistinct(v);
    SortOrdered(v.entries, EntryKey);
    var es := SortEntries(v.entries);
    forall i, j | 0 <= i < j < |es|
      ensures Less(Units(es[i].0), Units(es[j].0))
    {
      assert Less(EntryKey(es[i]), EntryKey(es[j]));
      NameOrder(es[i].0, es[j].0);
    }
  }

  lemma DictTree(v: Value) returns (t: Json)
    requires v.Dict? && Wf(v) && Jcs.Print(v).Some?
    ensures Legal(t) && Writes(t, v) && JsonGrammar.Print(t) == Jcs.Print(v).value
    decreases v, |v.entries| + 1
  {
    hide Jcs.Print, PrintEntries, SortEntries, ListBody, LegalMembers, WritesEntries, PrintMembers, InOrder, Wf;
    DictText(v, "");
    EntriesWf(v);
    SortedWf(v.entries);
    SortedInOrder(v);
    var es := SortEntries(v.entries);
    assert Jcs.Print(v).value + "" == Jcs.Print(v).value;
    var body := ListBody(PrintEntries(es, v).value, "}");
    assert body + "" == body;
    if v.entries == [] {
      NothingListed("}");
      NoEntries(es, v);
      t := Empty('{', "");
    } else {
      var ms := EntriesTree(es, v);
      t := Obj(ms);
    }
  }

  lemma NoEntries(es: Entries, parent: Value)
    requires es == []
    ensures Inside(es, parent) && PrintEntries(es, parent) == Some([])
  {
  }

  lemma EntryStep(es: Entries, parent: Value)
    requires es != [] && Inside(es, parent) && PrintEntries(es, parent).Some?
    ensures Inside(es[1..], parent) && Jcs.Print(es[0].1).Some? && PrintEntries(es[1..], parent).Some? && es[0].1 < parent
    ensures PrintEntries(es, parent).value ==
      [EscapeString(es[0].0) + (":" + Jcs.Print(es[0].1).value)] + PrintEntries(es[1..], parent).value
  {
    hide Jcs.Print, EscapeString;
    assert es[0] in es;
  }

  lemma {:induction false} EntriesTree(es: Entries, parent: Value) returns (ms: Members)
    requires es != [] && Inside(es, parent) && WfEntries(es) && PrintEntries(es, parent).Some?
    ensures LegalMembers(ms) && WritesEntries(ms, es)
    ensures PrintMembers(ms) == ListBody(PrintEntries(es, parent).value, "}")
    decreases parent, |es|
  {
    hide Jcs.Print, PrintEntries, ListBody, Wf, Legal, Writes, EscapeString, PrintString, AllUnits, Units;
    EntryStep(es, parent);
    var t := PrintIsJson(es[0].1);
    var key := TextTree(es[0].0);
    var p, rest := EscapeString(es[0].0) + (":" + Jcs.Print(es[0].1).value), PrintEntries(es[1..], parent).value;
    BodyStep(p, rest, "}");
    var m := Member("", key, "", "", t, "");
    MemberText(m, EscapeString(es[0].0), Jcs.Print(es[0].1).value);
    if |es| == 1 {
      NoEntries(es[1..], parent);
      ms := Members(m, LastMember);
    } else {
      var more := EntriesTree(es[1..], parent);
      ms := Members(m, MoreMembers(more));
    }
  }

  lemma MemberText(m: Member, key: string, value: string)
    requires m.before == "" && m.mid == "" && m.gap == "" && m.after == ""
    requires PrintString(m.key) == key && JsonGrammar.Print(m.value) == value
    ensures PrintMember(m) == key + (":" + value)
  {
    hide PrintString, JsonGrammar.Print;
    assert "" + (key + ("" + ":") + ("" + (value + ""))) == key + (":" + value);
  }
}
