/** S-expressions (src/Support/SExpr.cpp): reading what was printed gives the same tree back. */
module SExpr {

  datatype Value = Atom(text: string) | List(items: seq<Value>)

  predicate IsSpace(c: char) { c == ' ' || c == '\t' || c == '\n' || c == 11 as char || c == 12 as char || c == '\r' }

  predicate EndsAtom(c: char) { IsSpace(c) || c == '(' || c == ')' }

  // ---- Reading ----

  /** `Stuck` stands for a run that never comes back or reads past the end of its input. */
  datatype Outcome = Parsed(value: Value, rest: string) | NoValue | Stuck

  function SkipSpaces(s: string): (r: string)
    ensures |r| <= |s|
  {
    if s != [] && IsSpace(s[0]) then SkipSpaces(s[1..]) else s
  }

  function FindEnd(s: string): (n: nat)
    ensures n <= |s|
  {
    if s == [] || EndsAtom(s[0]) then 0 else 1 + FindEnd(s[1..])
  }

  /** An atom that runs to the end of the input loses its last character. */
  function AtomLength(s: string): (n: nat)
    requires s != []
    ensures n < |s|
  {
    if FindEnd(s) < |s| then FindEnd(s) else |s| - 1
  }

  function ParseValue(s: string): Outcome
    decreases |s|, 0
  {
    var t := SkipSpaces(s);
    if t == [] then NoValue
    else if t[0] == '(' then ParseItems(t[1..], [])
    else Parsed(Atom(t[..AtomLength(t)]), t[AtomLength(t)..])
  }

  function ParseItems(s: string, items: seq<Value>): Outcome
    decreases |s|, 1
  {
    if s == [] then Stuck
    else if s[0] == ')' then Parsed(List(items), s[1..])
    else
      match ParseValue(s)
      case Parsed(v, rest) => if |rest| < |s| then ParseItems(rest, items + [v]) else Stuck
      case _ => Stuck
  }

  /** The reader itself, which eats its input and fills the list in a loop. */
  method DoParse(input0: string) returns (o: Outcome)
    ensures o == ParseValue(input0)
    decreases |input0|
  {
    var input := SkipSpaces(input0);
    if input == [] {
      return NoValue;
    }
    if input[0] == '(' {
      input := input[1..];
      var slist: seq<Value> := [];
      while input != [] && input[0] != ')'
        invariant |input| < |input0| && ParseValue(input0) == ParseItems(input, slist)
        decreases |input|
      {
        var item := DoParse(input);
        if !item.Parsed? || |item.rest| >= |input| {
          return Stuck;
        }
        slist, input := slist + [item.value], item.rest;
      }
      return if input == [] then Stuck else Parsed(List(slist), input[1..]);
    }
    var closePos := AtomLength(input);
    o := Parsed(Atom(input[..closePos]), input[closePos..]);
  }

  function DropTrailing(s: string): string {
    if s != [] && IsSpace(s[|s| - 1]) then DropTrailing(s[..|s| - 1]) else s
  }

  function Trim(s: string): string { DropTrailing(SkipSpaces(s)) }

  // ---- Printing ----

  /** Lists are not empty; atoms are not empty and hold no space or parenthesis. */
  predicate Clean(v: Value) {
    match v
    case Atom(text) => text != [] && forall c | c in text :: c !in {' ', '\t', '\n', '\r', 11 as char, 12 as char, '(', ')'}
    case List(items) => items != [] && forall x | x in items :: Clean(x)
  }

  function Printed(v: Value): (r: string)
    decreases v, 0
  {
    match v
    case Atom(text) => text
    case List(items) => if items == [] then "()" else "(" + Body(items) + ")"
  }

  /** Items separated by single spaces. */
  function Body(items: seq<Value>): string
    requires items != []
    decreases items, 1
  {
    if |items| == 1 then Printed(items[0]) else Printed(items[0]) + " " + Body(items[1..])
  }

  /** Items each followed by a space. */
  function Spaced(items: seq<Value>): string {
    if items == [] then "" else Spaced(items[..|items| - 1]) + Printed(items[|items| - 1]) + " "
  }

  lemma {:induction false} SpacedFirst(items: seq<Value>)
    requires items != []
    ensures Spaced(items) == Printed(items[0]) + " " + Spaced(items[1..])
    decreases |items|
  {
    hide Printed;
    var n := |items| - 1;
    if n > 0 {
      SpacedFirst(items[..n]);
      assert items[..n][0] == items[0] && items[..n][1..] == items[1..][..n - 1] && items[1..][n - 1] == items[n];
      SpacedNext(items[1..], n - 1);
      SpacedNext(items, n);
      assert items[..n + 1] == items && items[1..][..n] == items[1..];
      Regroup(Printed(items[0]) + " ", Spaced(items[1..][..n - 1]), Printed(items[n]), " ");
      hide Spaced;
    } else {
      assert items[..0] == [] && items[1..] == [];
      assert Spaced([]) == "";
    }
  }

  lemma {:induction false} BodyLast(items: seq<Value>)
    requires items != []
    ensures Body(items) == Spaced(items[..|items| - 1]) + Printed(items[|items| - 1])
    decreases |items|
  {
    var n := |items| - 1;
    if n > 0 {
      BodyLast(items[1..]);
      SpacedFirst(items[..n]);
      assert items[..n][1..] == items[1..][..n - 1];
    }
  }

  /** Writes the value to the end of the stream `os0`; an empty list is not a value to print. */
  method Print(v: Value, os0: string) returns (os: string)
    requires Clean(v)
    ensures os == os0 + Printed(v)
    decreases v
  {
    match v
    case Atom(text) => os := os0 + text;
    case List(vec) =>
      hide Body, Printed, Spaced;
      PrintedList(vec);
      os := os0 + "(";
      NothingSpaced(vec);
      for i := 0 to |vec| - 1
        invariant os == os0 + "(" + Spaced(vec[..i])
      {
        assert vec[i] in vec;
        SpacedNext(vec, i);
        Regroup(os0 + "(", Spaced(vec[..i]), Printed(vec[i]), " ");
        os := Print(vec[i], os);
        os := os + " ";
      }
      assert vec[|vec| - 1] in vec;
      Regroup(os0 + "(", Spaced(vec[..|vec| - 1]), Printed(vec[|vec| - 1]), ")");
      Regroup(os0, "(", Spaced(vec[..|vec| - 1]) + Printed(vec[|vec| - 1]), ")");
      os := Print(vec[|vec| - 1], os);
      os := os + ")";
  }

  lemma Regroup(a: string, b: string, c: string, d: string)
    ensures a + b + c + d == a + (b + c + d) == a + (b + c) + d
  {
  }

  lemma NothingSpaced(vec: seq<Value>)
    ensures Spaced(vec[..0]) == ""
  {
  }

  lemma SpacedNext(vec: seq<Value>, i: nat)
    requires i < |vec|
    ensures Spaced(vec[..i + 1]) == Spaced(vec[..i]) + Printed(vec[i]) + " "
  {
    assert vec[..i + 1][..i] == vec[..i];
  }

  lemma PrintedList(vec: seq<Value>)
    requires vec != []
    ensures Printed(List(vec)) == "(" + (Spaced(vec[..|vec| - 1]) + Printed(vec[|vec| - 1])) + ")"
  {
    BodyLast(vec);
  }

  // ---- Reading any layout ----

  /** A value as it may stand in a text: white space goes before each item of a list and before the
      parenthesis that closes it. */
  datatype Layout = Word(text: string) | Group(items: seq<Item>, tail: string)
  datatype Item = Item(gap: string, value: Layout)

  function Text(t: Layout): string
    decreases t, 0
  {
    match t
    case Word(text) => text
    case Group(items, tail) => "(" + ItemsText(items) + tail + ")"
  }

  function ItemsText(items: seq<Item>): string
    decreases items, 1
  {
    if items == [] then "" else items[0].gap + Text(items[0].value) + ItemsText(items[1..])
  }

  /** White space before a closing parenthesis reads as one more atom, an empty one. */
  function Tree(t: Layout): Value
    decreases t, 0
  {
    match t
    case Word(text) => Atom(text)
    case Group(items, tail) => List(Trees(items) + if tail == "" then [] else [Atom("")])
  }

  function Trees(items: seq<Item>): seq<Value>
    decreases items, 1
  {
    if items == [] then [] else [Tree(items[0].value)] + Trees(items[1..])
  }

  predicate Within(s: string, chars: set<char>) { forall c | c in s :: c in chars }

  predicate Legal(t: Layout, white: set<char>)
    decreases t, 0
  {
    match t
    case Word(text) => text != "" && forall c | c in text :: c !in white && c != '(' && c != ')'
    case Group(items, tail) => LegalItems(items, false, white) && Within(tail, white)
  }

  /** White space is needed between two words only. */
  predicate LegalItems(items: seq<Item>, afterWord: bool, white: set<char>)
    decreases items, 1
  {
    items != [] ==>
      && Within(items[0].gap, white)
      && (afterWord && items[0].value.Word? ==> items[0].gap != "")
      && Legal(items[0].value, white)
      && LegalItems(items[1..], items[0].value.Word?, white)
  }

  predicate MayEnd(t: Layout, rest: string) { t.Word? ==> rest != [] && EndsAtom(rest[0]) }

  lemma {:induction false} FindEndOf(text: string, rest: string)
    requires (forall c | c in text :: !EndsAtom(c)) && rest != [] && EndsAtom(rest[0])
    ensures FindEnd(text + rest) == |text|
  {
    if text == [] {
      assert text + rest == rest;
    } else {
      assert (text + rest)[1..] == text[1..] + rest && text[0] in text;
      FindEndOf(text[1..], rest);
    }
  }

  lemma {:induction false} SkipGap(gap: string, s: string)
    requires forall c | c in gap :: IsSpace(c)
    ensures SkipSpaces(gap + s) == SkipSpaces(s)
  {
    if gap == "" {
      assert gap + s == s;
    } else {
      assert (gap + s)[1..] == gap[1..] + s && gap[0] in gap;
      SkipGap(gap[1..], s);
    }
  }

  /** Whatever white space of the six kinds stands between its parts, a text is read as its tree, and
      nothing more is taken off the input. */
  lemma {:induction false} ReadLayout(t: Layout, rest: string, white: set<char>)
    requires white == {' ', '\t', '\n', '\r', 11 as char, 12 as char}
    requires Legal(t, white) && MayEnd(t, rest)
    ensures ParseValue(Text(t) + rest) == Parsed(Tree(t), rest)
    decreases t, 0
  {
    var s := Text(t) + rest;
    match t
    case Word(text) =>
      assert text[0] in text;
      FindEndOf(text, rest);
      assert s[..|text|] == text && s[|text|..] == rest;
    case Group(items, tail) =>
      assert s[1..] == ItemsText(items) + (tail + ")" + rest);
      ReadItems(items, false, tail, rest, [], white);
      assert [] + Trees(items) == Trees(items);
  }

  lemma {:induction false} ReadItems(items: seq<Item>, afterWord: bool, tail: string, rest: string, before: seq<Value>, white: set<char>)
    requires white == {' ', '\t', '\n', '\r', 11 as char, 12 as char}
    requires LegalItems(items, afterWord, white) && Within(tail, white)
    ensures var end := tail + ")" + rest;
            && ParseItems(ItemsText(items) + end, before)
               == Parsed(List(before + Trees(items) + if tail == "" then [] else [Atom("")]), rest)
            && (afterWord ==> EndsAtom((ItemsText(items) + end)[0]))
    decreases items, 1
  {
    var end := tail + ")" + rest;
    if items == [] {
      NothingFirst(end, before);
      ReadTail(tail, rest, before);
    } else {
      hide ParseValue, ParseItems, IsSpace, Text, Tree, ItemsText, Trees, LegalItems, Legal, Within;
      var x, more := items[0].value, ItemsText(items[1..]) + end;
      ItemFirst(items, afterWord, end, before, white);
      ReadItems(items[1..], x.Word?, tail, rest, before + [Tree(x)], white);
      ReadLayout(x, more, white);
      ReadItem(items[0].gap, Text(x), more, Tree(x), before);
    }
  }

  lemma NothingFirst(end: string, before: seq<Value>)
    ensures ItemsText([]) + end == end && before + Trees([]) == before
  {
    assert ItemsText([]) == "" && Trees([]) == [];
  }

  lemma ItemFirst(items: seq<Item>, afterWord: bool, end: string, before: seq<Value>, white: set<char>)
    requires white == {' ', '\t', '\n', '\r', 11 as char, 12 as char} && items != [] && LegalItems(items, afterWord, white)
    ensures var x, gap, text := items[0].value, items[0].gap, Text(items[0].value);
            && ItemsText(items) + end == gap + (text + (ItemsText(items[1..]) + end))
            && before + [Tree(x)] + Trees(items[1..]) == before + Trees(items)
            && Legal(x, white) && LegalItems(items[1..], x.Word?, white)
            && (forall c | c in gap :: IsSpace(c))
            && text != "" && text[0] != ')' && (afterWord ==> gap != "" || text[0] == '(')
  {
    LegalFirst(items, afterWord, white);
    TextStart(items[0].value, white);
    hide Text, Tree, Legal, LegalItems, Within, IsSpace;
    FourParts(items[0].gap, Text(items[0].value), ItemsText(items[1..]), end);
    TreesFirst(items, before);
    hide Trees;
  }

  lemma LegalFirst(items: seq<Item>, afterWord: bool, white: set<char>)
    requires white == {' ', '\t', '\n', '\r', 11 as char, 12 as char} && items != [] && LegalItems(items, afterWord, white)
    ensures var x, gap := items[0].value, items[0].gap;
            && Legal(x, white) && LegalItems(items[1..], x.Word?, white)
            && (forall c | c in gap :: IsSpace(c)) && (afterWord && x.Word? ==> gap != "")
  {
    hide Legal;
  }

  lemma FourParts(a: string, b: string, c: string, d: string)
    ensures a + b + c + d == a + (b + (c + d))
  {
  }

  lemma TreesFirst(items: seq<Item>, before: seq<Value>)
    requires items != []
    ensures before + [Tree(items[0].value)] + Trees(items[1..]) == before + Trees(items)
  {
    hide Tree;
    assert Trees(items) == [Tree(items[0].value)] + Trees(items[1..]);
  }

  lemma TextStart(t: Layout, white: set<char>)
    requires Legal(t, white)
    ensures var s := Text(t);
            s != "" && s[0] != ')' && (t.Word? ==> s[0] !in white && s[0] != '(') && (t.Group? ==> s[0] == '(')
  {
    if t.Word? {
      assert t.text[0] in t.text;
    }
  }

  lemma {:induction false} ReadItem(gap: string, text: string, more: string, v: Value, before: seq<Value>)
    requires (forall c | c in gap :: IsSpace(c)) && text != "" && text[0] != ')'
    requires ParseValue(text + more) == Parsed(v, more)
    ensures ParseItems(gap + (text + more), before) == ParseItems(more, before + [v])
    ensures gap != "" || text[0] == '(' ==> EndsAtom((gap + (text + more))[0])
  {
    var s := gap + (text + more);
    SkipGap(gap, text + more);
    assert ParseValue(s) == ParseValue(text + more);
    assert gap != "" ==> gap[0] in gap;
    assert |more| < |s|;
    hide ParseValue;
  }

  lemma {:induction false} ReadTail(tail: string, rest: string, before: seq<Value>)
    requires forall c | c in tail :: IsSpace(c)
    ensures EndsAtom((tail + ")" + rest)[0])
    ensures ParseItems(tail + ")" + rest, before) == Parsed(List(before + if tail == "" then [] else [Atom("")]), rest)
  {
    var end := ")" + rest;
    assert end[1..] == rest && tail + ")" + rest == tail + end;
    if tail == "" {
      assert tail + end == end && before + [] == before;
    } else {
      assert tail[0] in tail;
      SkipGap(tail, end);
      assert SkipSpaces(end) == end && FindEnd(end) == 0;
      assert end[..0] == "" && end[0..] == end;
      assert ParseValue(tail + end) == Parsed(Atom(""), end);
    }
  }

  /** An atom with nothing behind it loses its last character. */
  lemma {:induction false} LastAtom(text: string)
    requires text != "" && forall c | c in text :: c !in {' ', '\t', '\n', '\r', 11 as char, 12 as char, '(', ')'}
    ensures ParseValue(text) == Parsed(Atom(text[..|text| - 1]), text[|text| - 1..])
  {
    assert text[0] in text;
    NoEnd(text);
  }

  lemma {:induction false} NoEnd(text: string)
    requires forall c | c in text :: !EndsAtom(c)
    ensures FindEnd(text) == |text|
  {
    if text != "" {
      assert text[0] in text;
      NoEnd(text[1..]);
    }
  }

  // ---- What is read is a layout ----

  /** `g` is white space in front of `t`, and `rest` is left. */
  ghost predicate Shows(g: string, t: Layout, rest: string, s: string, v: Value, white: set<char>) {
    Legal(t, white) && Within(g, white) && s == g + Text(t) + rest && Tree(t) == v
  }

  /** Every list the reader accepts stands in the input as a layout of it. */
  lemma {:induction false} ReadIsLayout(s: string, white: set<char>)
    requires white == {' ', '\t', '\n', '\r', 11 as char, 12 as char}
    requires ParseValue(s).Parsed? && ParseValue(s).value.List?
    ensures exists g, t: Layout :: t.Group? && Shows(g, t, ParseValue(s).rest, s, ParseValue(s).value, white)
    decreases |s|, 0
  {
    var t := SkipSpaces(s);
    SkippedSpaces(s);
    var g := s[..|s| - |t|];
    assert forall c | c in g :: IsSpace(c);
    assert s == g + t && t == "(" + t[1..];
    var o := ParseValue(s);
    assert o == ParseItems(t[1..], []);
    hide ParseValue, ParseItems, SkipSpaces;
    var items, tail := LayoutOfItems(t[1..], false, [], white);
    assert Within(g, white);
    GroupShown(g, items, tail, o.rest, white);
    assert Shows(g, Group(items, tail), o.rest, s, o.value, white);
  }

  lemma GroupShown(g: string, items: seq<Item>, tail: string, rest: string, white: set<char>)
    requires LegalItems(items, false, white) && Within(tail, white) && Within(g, white)
    ensures Shows(g, Group(items, tail), rest, g + ("(" + (ItemsText(items) + tail + ")" + rest)),
                  List([] + Trees(items) + if tail == "" then [] else [Atom("")]), white)
  {
    hide ItemsText, Trees, LegalItems;
    assert [] + Trees(items) == Trees(items);
    assert g + ("(" + (ItemsText(items) + tail + ")" + rest)) == g + ("(" + ItemsText(items) + tail + ")") + rest;
  }

  /** `s` begins with the items, the tail and the parenthesis that closes the list. */
  ghost predicate Lists(items: seq<Item>, tail: string, afterWord: bool, s: string, before: seq<Value>, o: Outcome, white: set<char>) {
    && LegalItems(items, afterWord, white) && Within(tail, white)
    && o.Parsed? && o.value == List(before + Trees(items) + if tail == "" then [] else [Atom("")])
    && s == ItemsText(items) + tail + ")" + o.rest
  }

  lemma {:induction false} LayoutOfItems(s: string, afterWord: bool, before: seq<Value>, white: set<char>) returns (items: seq<Item>, tail: string)
    requires white == {' ', '\t', '\n', '\r', 11 as char, 12 as char}
    requires ParseItems(s, before).Parsed? && (afterWord && s != "" ==> EndsAtom(s[0]))
    ensures Lists(items, tail, afterWord, s, before, ParseItems(s, before), white)
    decreases |s|, 2
  {
    assert s != "";
    hide ParseValue, ParseItems, SkipSpaces, FindEnd, AtomLength;
    if s[0] == ')' {
      items, tail := [], "";
      LastItem(s, before);
      NoItems("", s, before, white, afterWord);
      assert "" + s == s;
    } else {
      NextItem(s, before);
      var v, rest, t := ParseValue(s).value, ParseValue(s).rest, SkipSpaces(s);
      var g := s[..|s| - |t|];
      SpacesWithin(g, white);
      if t[0] == ')' {
        items, tail := [], g;
        LastItem(t, before + [v]);
        NoItems(g, t, before, white, afterWord);
      } else {
        var x := LayoutOfItem(s, before + [v], white);
        var more, tail' := LayoutOfItems(rest, x.Word?, before + [v], white);
        items, tail := [Item(g, x)] + more, tail';
        hide Within, Lists, Legal, Text, Tree, IsSpace;
        MoreItems(g, x, more, tail, afterWord, rest, before, ParseItems(s, before), white);
      }
    }
  }

  lemma NoItems(g: string, t: string, before: seq<Value>, white: set<char>, afterWord: bool)
    requires Within(g, white) && t != "" && t[0] == ')'
    ensures Lists([], g, afterWord, g + t, before, Parsed(List(before + if g == "" then [] else [Atom("")]), t[1..]), white)
  {
    assert before + Trees([]) == before && ItemsText([]) + g == g;
    assert t == ")" + t[1..];
  }

  lemma MoreItems(g: string, x: Layout, items: seq<Item>, tail: string, afterWord: bool, rest: string, before: seq<Value>, o: Outcome, white: set<char>)
    requires Lists(items, tail, x.Word?, rest, before + [Tree(x)], o, white)
    requires Within(g, white) && Legal(x, white) && (afterWord && x.Word? ==> g != "")
    ensures Lists([Item(g, x)] + items, tail, afterWord, g + (Text(x) + rest), before, o, white)
  {
    var more := [Item(g, x)] + items;
    assert more[1..] == items;
    assert LegalItems(more, afterWord, white) && ItemsText(more) == g + Text(x) + ItemsText(items);
    assert before + [Tree(x)] + Trees(items) == before + Trees(more);
    hide LegalItems, ItemsText, Trees, Text, Tree, Legal, Within;
    Joined(g, Text(x), ItemsText(items), tail, o.rest);
  }

  lemma SpacesWithin(g: string, white: set<char>)
    requires white == {' ', '\t', '\n', '\r', 11 as char, 12 as char} && forall c | c in g :: IsSpace(c)
    ensures Within(g, white)
  {
  }

  lemma Joined(g: string, x: string, more: string, tail: string, rest: string)
    ensures g + (x + (more + tail + ")" + rest)) == g + x + more + tail + ")" + rest
  {
  }

  lemma LastItem(s: string, before: seq<Value>)
    requires s != "" && s[0] == ')'
    ensures ParseItems(s, before) == Parsed(List(before), s[1..]) && s == ")" + s[1..]
  {
  }

  lemma {:induction false} NextItem(s: string, before: seq<Value>)
    requires ParseItems(s, before).Parsed? && s[0] != ')'
    ensures var o, t := ParseValue(s), SkipSpaces(s);
            && o.Parsed? && |o.rest| < |s| && ParseItems(s, before) == ParseItems(o.rest, before + [o.value])
            && t != "" && !IsSpace(t[0]) && |t| <= |s| && s == s[..|s| - |t|] + t && (|t| < |s| ==> EndsAtom(s[0]))
            && (forall c | c in s[..|s| - |t|] :: IsSpace(c))
            && (t[0] == ')' ==> |t| < |s| && o == Parsed(Atom(""), t))
  {
    SkippedSpaces(s);
    NoSpaceFirst(s);
    var t := SkipSpaces(s);
    if t != "" && t[0] == ')' {
      assert AtomLength(t) == 0 && t[..0] == "" && t[0..] == t;
    }
  }

  /** The next item, behind its white space. */
  lemma {:induction false} LayoutOfItem(s: string, before: seq<Value>, white: set<char>) returns (x: Layout)
    requires white == {' ', '\t', '\n', '\r', 11 as char, 12 as char}
    requires SkipSpaces(s) != "" && SkipSpaces(s)[0] != ')' && ParseValue(s).Parsed?
    requires ParseItems(ParseValue(s).rest, before).Parsed?
    ensures var o, t := ParseValue(s), SkipSpaces(s);
            && Legal(x, white) && t == Text(x) + o.rest && Tree(x) == o.value
            && (x.Word? ==> !EndsAtom(t[0]) && o.rest != "" && EndsAtom(o.rest[0]))
    decreases |s|, 1
  {
    var t, o := SkipSpaces(s), ParseValue(s);
    if t[0] == '(' {
      ItemsShorter(t[1..], []);
      ReadIsLayout(s, white);
      hide ParseValue, ParseItems, SkipSpaces;
      var g, x': Layout :| x'.Group? && Shows(g, x', o.rest, s, o.value, white);
      x := x';
      SameGroup(s, g, x, o.rest, o.value, white);
    } else {
      NoSpaceFirst(s);
      x := WordOf(t, before, white);
    }
  }

  lemma {:induction false} SameGroup(s: string, g: string, x: Layout, rest: string, v: Value, white: set<char>)
    requires white == {' ', '\t', '\n', '\r', 11 as char, 12 as char}
    requires x.Group? && Shows(g, x, rest, s, v, white) && SkipSpaces(s) != ""
    ensures SkipSpaces(s) == Text(x) + rest
  {
    var t := SkipSpaces(s);
    SkippedSpaces(s);
    NoSpaceFirst(s);
    SameStart(g, x, white);
    hide SkipSpaces, Text, Tree, Legal;
    var g' := s[..|s| - |t|];
    assert s == g' + t && s == g + (Text(x) + rest);
    SameGap(g, Text(x) + rest, g', t);
  }

  lemma SameStart(g: string, x: Layout, white: set<char>)
    requires white == {' ', '\t', '\n', '\r', 11 as char, 12 as char} && Within(g, white) && x.Group?
    ensures (forall c | c in g :: IsSpace(c)) && Text(x) != "" && !IsSpace(Text(x)[0])
  {
  }

  lemma SameGap(g: string, t: string, g': string, t': string)
    requires g + t == g' + t' && (forall c | c in g :: IsSpace(c)) && (forall c | c in g' :: IsSpace(c))
    requires t != "" && t' != "" && !IsSpace(t[0]) && !IsSpace(t'[0])
    ensures g == g' && t == t'
  {
    SkipGap(g, t);
    SkipGap(g', t');
    assert SkipSpaces(t) == t && SkipSpaces(t') == t';
    assert (g + t)[..|g|] == g && (g' + t')[..|g'|] == g';
  }

  lemma {:induction false} LastIsStuck(t: string, before: seq<Value>)
    requires t != "" && FindEnd(t) == |t|
    ensures ParseItems(t[AtomLength(t)..], before).Stuck?
  {
    BeforeEnd(t);
    assert t[..|t|] == t;
    var last := t[|t| - 1..];
    assert last[0] in t;
    NoEnd(last);
    assert last[..0] == "" && last[0..] == last && SkipSpaces(last) == last;
    assert ParseValue(last) == Parsed(Atom(""), last);
  }

  /** An atom of a finished list ends before the end of the input. */
  lemma {:induction false} WordOf(t: string, before: seq<Value>, white: set<char>) returns (x: Layout)
    requires white == {' ', '\t', '\n', '\r', 11 as char, 12 as char}
    requires t != "" && !EndsAtom(t[0]) && ParseItems(t[AtomLength(t)..], before).Parsed?
    ensures x.Word? && Legal(x, white) && x.text == t[..AtomLength(t)] && EndsAtom(t[AtomLength(t)])
  {
    var n := FindEnd(t);
    BeforeEnd(t);
    if n == |t| {
      LastIsStuck(t, before);
    }
    EndIsEnd(t);
    x := Word(t[..n]);
  }

  lemma {:induction false} EndIsEnd(s: string)
    ensures FindEnd(s) < |s| ==> EndsAtom(s[FindEnd(s)])
  {
    if s != "" && !EndsAtom(s[0]) {
      EndIsEnd(s[1..]);
    }
  }

  // ---- Reading what was printed ----

  /** One more item is printed behind exactly one blank. */
  lemma {:induction false} PrintedNext(items: seq<Value>, y: Value)
    ensures Printed(List(items + [y]))
            == if items == [] then "(" + Printed(y) + ")"
               else var s := Printed(List(items)); s[..|s| - 1] + " " + Printed(y) + ")"
  {
    var more := items + [y];
    PrintedList(more);
    assert more[..|more| - 1] == items;
    if items != [] {
      PrintedList(items);
      var n := |items| - 1;
      assert Spaced(items) == Spaced(items[..n]) + Printed(items[n]) + " ";
    }
    hide Printed, Spaced;
  }

  /** The layout that is printed. */
  function Printout(v: Value): (t: Layout)
    decreases v, 0
  {
    match v
    case Atom(text) => Word(text)
    case List(items) => Group(Printouts(items, ""), "")
  }

  function Printouts(items: seq<Value>, gap: string): (r: seq<Item>)
    decreases items, 1
  {
    if items == [] then [] else [Item(gap, Printout(items[0]))] + Printouts(items[1..], " ")
  }

  lemma {:induction false} PrintoutOf(v: Value, white: set<char>)
    requires Clean(v) && white == {' ', '\t', '\n', '\r', 11 as char, 12 as char}
    ensures Text(Printout(v)) == Printed(v) && Tree(Printout(v)) == v && Legal(Printout(v), white)
    decreases v, 0
  {
    if v.List? {
      PrintoutsOf(v.items, "", white);
      assert Trees(Printouts(v.items, "")) + [] == v.items;
    }
  }

  lemma {:induction false} PrintoutsOf(items: seq<Value>, gap: string, white: set<char>)
    requires items != [] && (forall x | x in items :: Clean(x)) && white == {' ', '\t', '\n', '\r', 11 as char, 12 as char}
    requires gap == "" || gap == " "
    ensures var r := Printouts(items, gap);
            ItemsText(r) == gap + Body(items) && Trees(r) == items && LegalItems(r, gap != "", white)
    decreases items, 1
  {
    var x, more := items[0], items[1..];
    var r := Printouts(items, gap);
    assert r[1..] == Printouts(more, " ");
    PrintoutOf(x, white);
    if more != [] {
      PrintoutsOf(more, " ", white);
    }
    hide Text, Printed, Tree, Legal, Printout;
  }

  /** The reader takes exactly the printed text of a value off its input. */
  lemma {:induction false} ParsePrinted(v: Value, rest: string)
    requires Clean(v) && (v.Atom? ==> rest != [] && EndsAtom(rest[0]))
    ensures ParseValue(Printed(v) + rest) == Parsed(v, rest)
  {
    var white := {' ', '\t', '\n', '\r', 11 as char, 12 as char};
    PrintoutOf(v, white);
    ReadLayout(Printout(v), rest, white);
  }

  // ---- When the reader comes back ----

  function Opens(s: string): nat { if s == [] then 0 else Opens(s[..|s| - 1]) + (if s[|s| - 1] == '(' then 1 else 0) }

  function Closes(s: string): nat { if s == [] then 0 else Closes(s[..|s| - 1]) + (if s[|s| - 1] == ')' then 1 else 0) }

  ghost function Depth(s: string): int { Opens(s) - Closes(s) }

  /** No prefix closes more than it opens. */
  ghost predicate StaysOpen(s: string) { forall k | 0 <= k <= |s| :: Depth(s[..k]) >= 0 }

  lemma {:induction false} DepthSum(a: string, b: string)
    ensures Depth(a + b) == Depth(a) + Depth(b)
    decreases |b|
  {
    if b == [] {
      assert a + b == a;
    } else {
      var n := |b| - 1;
      assert (a + b)[..|a + b| - 1] == a + b[..n];
      DepthSum(a, b[..n]);
    }
  }

  lemma {:induction false} StaysOpenSum(a: string, b: string)
    requires StaysOpen(a) && Depth(a) == 0
    ensures StaysOpen(a + b) <==> StaysOpen(b)
  {
    hide Depth;
    var s := a + b;
    forall k | 0 <= k <= |s| ensures Depth(s[..k]) == if k <= |a| then Depth(a[..k]) else Depth(b[..k - |a|]) {
      if k <= |a| {
        assert s[..k] == a[..k];
      } else {
        assert s[..k] == a + b[..k - |a|];
        DepthSum(a, b[..k - |a|]);
      }
    }
    if StaysOpen(s) {
      forall k | 0 <= k <= |b| ensures Depth(b[..k]) >= 0 {
        if k == 0 { assert b[..0] == a[..0]; } else { assert Depth(s[..|a| + k]) >= 0; }
      }
    }
  }

  /** Text without parentheses neither opens nor closes. */
  lemma {:induction false} FlatText(s: string)
    requires forall c | c in s :: c != '(' && c != ')'
    ensures Depth(s) == 0 && StaysOpen(s)
    decreases |s|
  {
    if s != [] {
      var n := |s| - 1;
      forall c | c in s[..n] ensures c != '(' && c != ')' { assert c in s; }
      FlatText(s[..n]);
      assert s[n] in s;
      forall k | 0 <= k <= |s| ensures Depth(s[..k]) >= 0 {
        if k <= n { assert s[..k] == s[..n][..k]; } else { assert s[..k] == s; }
      }
    }
  }

  lemma {:induction false} SkippedSpaces(s: string)
    ensures var t := SkipSpaces(s); |t| <= |s| && s[|s| - |t|..] == t && forall c | c in s[..|s| - |t|] :: IsSpace(c)
    decreases |s|
  {
    if s != [] && IsSpace(s[0]) {
      SkippedSpaces(s[1..]);
      var t := SkipSpaces(s[1..]);
      var n := |s| - |t|;
      assert s[..n] == [s[0]] + s[1..][..n - 1];
    }
  }

  lemma {:induction false} AtomText(s: string)
    requires s != []
    ensures forall c | c in s[..AtomLength(s)] :: !EndsAtom(c)
  {
    BeforeEnd(s);
    var n, m := AtomLength(s), FindEnd(s);
    forall c | c in s[..n] ensures c in s[..m] { var k :| 0 <= k < n && s[k] == c; assert s[..m][k] == c; }
  }

  lemma {:induction false} BeforeEnd(s: string)
    ensures forall c | c in s[..FindEnd(s)] :: !EndsAtom(c)
    decreases |s|
  {
    if s != [] && !EndsAtom(s[0]) {
      BeforeEnd(s[1..]);
      assert s[..FindEnd(s)] == [s[0]] + s[1..][..FindEnd(s[1..])];
    }
  }

  /** `rest` is what is left of `s` after a part of the given depth that never closes too much. */
  ghost predicate Consumes(s: string, rest: string, depth: int) {
    && |rest| <= |s| && s[|s| - |rest|..] == rest && Depth(s[..|s| - |rest|]) == depth
    && (depth == 0 ==> StaysOpen(s[..|s| - |rest|]))
  }

  lemma {:induction false} Consumed(s: string, rest: string, rest': string, depth: int)
    requires Consumes(s, rest, 0) && Consumes(rest, rest', depth)
    ensures Consumes(s, rest', depth)
  {
    var a, b := s[..|s| - |rest|], rest[..|rest| - |rest'|];
    assert s == a + rest && s[..|s| - |rest'|] == a + b && s[|s| - |rest'|..] == rest';
    DepthSum(a, b);
    StaysOpenSum(a, b);
    hide Depth, StaysOpen;
  }

  lemma {:induction false} OpensFirst(t: string)
    requires t != [] && t[0] == '('
    ensures forall k | 1 <= k <= |t| :: Depth(t[..k]) == 1 + Depth(t[1..][..k - 1])
  {
    forall k | 1 <= k <= |t| ensures Depth(t[..k]) == 1 + Depth(t[1..][..k - 1]) {
      assert t[..k] == "(" + t[1..][..k - 1];
      DepthSum("(", t[1..][..k - 1]);
      assert Depth("(") == 1;
    }
  }

  /** A list that is read uses up its own parentheses and no more. */
  lemma {:induction false} ListConsumes(t: string, rest: string)
    requires t != [] && t[0] == '(' && Consumes(t[1..], rest, -1)
    requires forall k | 0 <= k < |t[1..]| - |rest| :: Depth(t[1..][..k]) >= 0
    ensures Consumes(t, rest, 0)
  {
    OpensFirst(t);
    hide Depth;
    var n := |t| - |rest|;
    assert t[n..] == t[1..][n - 1..];
    forall k | 0 <= k <= n ensures Depth(t[..n][..k]) >= 0 {
      assert t[..n][..k] == t[..k];
      if k == 0 { EmptyDepth(t[..0]); }
    }
  }

  lemma EmptyDepth(s: string)
    requires s == []
    ensures Depth(s) == 0
  {
  }

  /** What reading a value does to the depth, and what is known when it never comes back. */
  lemma {:induction false} ValueDepth(s: string)
    ensures match ParseValue(s)
            case Parsed(_, rest) => Consumes(s, rest, 0)
            case NoValue => StaysOpen(s)
            case Stuck => StaysOpen(s) && SkipSpaces(s) != [] && SkipSpaces(s)[0] == '(' && StaysOpen(SkipSpaces(s)[1..])
    decreases |s|, 0
  {
    var t := SkipSpaces(s);
    SkippedSpaces(s);
    var spaces := s[..|s| - |t|];
    forall c | c in spaces ensures c != '(' && c != ')' { assert IsSpace(c); }
    FlatText(spaces);
    assert s == spaces + t;
    assert Consumes(s, t, 0);
    if t == [] {
      assert s == spaces;
    } else if t[0] == '(' {
      ItemsDepth(t[1..], []);
      OpensFirst(t);
      StaysOpenSum(spaces, t);
      hide Depth, StaysOpen, Consumes;
      match ParseItems(t[1..], [])
      case Parsed(_, rest) => ListConsumes(t, rest); Consumed(s, t, rest, 0);
      case NoValue =>
      case Stuck => OpenTail(t);
    } else {
      var n := AtomLength(t);
      AtomText(t);
      FlatText(t[..n]);
      assert t[|t| - |t[n..]|..] == t[n..];
      Consumed(s, t, t[n..], 0);
    }
  }

  lemma {:induction false} OpenTail(t: string)
    requires t != [] && t[0] == '(' && StaysOpen(t[1..])
    ensures StaysOpen(t)
  {
    OpensFirst(t);
    hide Depth;
    forall k | 0 <= k <= |t| ensures Depth(t[..k]) >= 0 { if k == 0 { EmptyDepth(t[..0]); } }
  }

  /** Reading items either ends at the parenthesis that closes the list, or no such one exists. */
  lemma {:induction false} ItemsDepth(s: string, items: seq<Value>)
    ensures match ParseItems(s, items)
            case Parsed(_, rest) => Consumes(s, rest, -1) && forall k | 0 <= k < |s| - |rest| :: Depth(s[..k]) >= 0
            case NoValue => false
            case Stuck => StaysOpen(s)
    decreases |s|, 1
  {
    if s == [] {
    } else if s[0] == ')' {
      assert s[..1] == ")" && s[..0] == "" && Depth(")") == -1;
    } else {
      ValueDepth(s);
      match ParseValue(s)
      case NoValue =>
      case Stuck =>
      case Parsed(v, rest) =>
        if |rest| < |s| {
          ItemsDepth(rest, items + [v]);
          ItemsGoOn(s, rest, ParseItems(rest, items + [v]));
        } else {
          NothingTaken(s);
          FlatText(s);
        }
    }
  }

  lemma {:induction false} ItemsGoOn(s: string, rest: string, o: Outcome)
    requires Consumes(s, rest, 0) && !o.NoValue?
    requires o.Parsed? ==> Consumes(rest, o.rest, -1) && forall k | 0 <= k < |rest| - |o.rest| :: Depth(rest[..k]) >= 0
    requires o.Stuck? ==> StaysOpen(rest)
    ensures o.Parsed? ==> Consumes(s, o.rest, -1) && forall k | 0 <= k < |s| - |o.rest| :: Depth(s[..k]) >= 0
    ensures o.Stuck? ==> StaysOpen(s)
  {
    var a := s[..|s| - |rest|];
    assert s == a + rest;
    StaysOpenSum(a, rest);
    if o.Parsed? {
      Consumed(s, rest, o.rest, -1);
      forall k | 0 <= k < |s| - |o.rest| ensures Depth(s[..k]) >= 0 {
        if k <= |a| {
          assert s[..k] == a[..k];
        } else {
          assert s[..k] == a + rest[..k - |a|];
          DepthSum(a, rest[..k - |a|]);
        }
      }
    }
  }

  /** A list that is read takes something off its input, and reading items always says something. */
  lemma {:induction false} ItemsShorter(s: string, items: seq<Value>)
    ensures var o := ParseItems(s, items); !o.NoValue? && (o.Parsed? ==> |o.rest| < |s| && o.value.List?)
    decreases |s|
  {
    if s != [] && s[0] != ')' && ParseValue(s).Parsed? && |ParseValue(s).rest| < |s| {
      ItemsShorter(ParseValue(s).rest, items + [ParseValue(s).value]);
    }
  }

  /** The reader takes nothing only off a last character that is no parenthesis. */
  lemma {:induction false} NothingTaken(s: string)
    requires s != [] && s[0] != ')' && ParseValue(s).Parsed? && |ParseValue(s).rest| == |s|
    ensures |s| == 1 && s[0] != '(' && s[0] != ')'
  {
    var t := SkipSpaces(s);
    SkippedSpaces(s);
    NoSpaceFirst(s);
    if t[0] == '(' {
      ItemsShorter(t[1..], []);
    } else {
      assert |t[AtomLength(t)..]| == |t| - AtomLength(t);
      assert t == s && AtomLength(s) == 0;
      assert FindEnd(s) == 1 + FindEnd(s[1..]);
    }
  }

  /** Reading never comes back exactly when the first parenthesis is never closed. */
  lemma {:induction false} StuckIffUnclosed(s: string)
    ensures ParseValue(s).Stuck? <==> Unclosed(SkipSpaces(s))
  {
    var t := SkipSpaces(s);
    ValueDepth(s);
    if t != [] && t[0] == '(' {
      OpensFirst(t);
      if ParseValue(s).Stuck? {
        forall k | 1 <= k <= |t| ensures Opens(t[..k]) > Closes(t[..k]) { assert Depth(t[1..][..k - 1]) >= 0; }
      } else {
        ItemsDepth(t[1..], []);
        var rest := ParseItems(t[1..], []).rest;
        var n := |t[1..]| - |rest|;
        assert Depth(t[1..][..n]) == -1;
        assert Depth(t[..n + 1]) == 0;
      }
    }
  }

  /** The text begins with a parenthesis that nothing closes. */
  predicate Unclosed(t: string) {
    t != [] && t[0] == '(' && forall k | 1 <= k <= |t| :: Opens(t[..k]) > Closes(t[..k])
  }

  lemma {:induction false} PrintedEnds(v: Value)
    requires v.List?
    ensures Printed(v) != "" && Printed(v)[0] == '(' && Printed(v)[|Printed(v)| - 1] == ')'
    ensures Trim(Printed(v)) == Printed(v)
  {
  }

  /** Trimming takes all white space of the six kinds off both ends and nothing else. */
  lemma {:induction false} Trimmed(before: string, s: string, after: string, white: set<char>)
    requires white == {' ', '\t', '\n', '\r', 11 as char, 12 as char}
    requires Within(before, white) && Within(after, white)
    requires s != "" && s[0] !in white && s[|s| - 1] !in white
    ensures Trim(before + s + after) == s
  {
    assert before + s + after == before + (s + after);
    SkipGap(before, s + after);
    assert SkipSpaces(s + after) == s + after;
    DropGap(s, after);
  }

  lemma {:induction false} DropGap(s: string, after: string)
    requires (forall c | c in after :: IsSpace(c)) && s != "" && !IsSpace(s[|s| - 1])
    ensures DropTrailing(s + after) == s
    decreases |after|
  {
    var n := |after| - 1;
    if after == "" {
      assert s + after == s;
    } else {
      assert (s + after)[..|s + after| - 1] == s + after[..n] && after[n] in after;
      assert forall c | c in after[..n] :: c in after;
      DropGap(s, after[..n]);
    }
  }

  lemma {:induction false} TrimmedLayout(before: string, t: Layout, after: string, white: set<char>)
    requires white == {' ', '\t', '\n', '\r', 11 as char, 12 as char}
    requires t.Group? && Legal(t, white) && Within(before + after, white)
    ensures var s := Trim(before + Text(t) + after); s != "" && s[0] == '(' && ParseValue(s) == Parsed(Tree(t), "")
  {
    assert forall c | c in before || c in after :: c in before + after;
    Trimmed(before, Text(t), after, white);
    ReadLayout(t, "", white);
    assert Text(t) + "" == Text(t);
  }

  /** A printed list is read back, and so is any layout of it: white space around and between the parts
      does not matter; an input whose first parenthesis is never closed is never finished; an atom
      between no parentheses is refused. */
  method Parse(input: string) returns (o: Outcome)
    ensures var white := {' ', '\t', '\n', '\r', 11 as char, 12 as char};
            forall before, t: Layout, after | t.Group? && Legal(t, white) && Within(before + after, white) && input == before + Text(t) + after
              :: o == Parsed(Tree(t), "")
    ensures forall v | Clean(v) && v.List? && Trim(input) == Printed(v) :: o == Parsed(v, "")
    ensures o.Stuck? <==> Trim(input) == "" || Unclosed(Trim(input))
    ensures o.NoValue? <==> var t := Trim(input); t != "" && t[0] != '(' && t[|t| - 1] != ')'
  {
    var trimmed := Trim(input);
    TrimmedStart(input);
    forall v | Clean(v) && v.List? && trimmed == Printed(v) ensures ParseValue(trimmed) == Parsed(v, "") && trimmed != "" && trimmed[0] == '(' {
      PrintedEnds(v);
      assert Printed(v) + "" == Printed(v);
      ParsePrinted(v, "");
    }
    var white := {' ', '\t', '\n', '\r', 11 as char, 12 as char};
    forall before, t: Layout, after | t.Group? && Legal(t, white) && Within(before + after, white) && input == before + Text(t) + after
      ensures ParseValue(trimmed) == Parsed(Tree(t), "") && trimmed != "" && trimmed[0] == '('
    {
      TrimmedLayout(before, t, after, white);
    }
    if trimmed == [] {
      return Stuck;
    }
    if trimmed[0] != '(' && trimmed[|trimmed| - 1] != ')' {
      return NoValue;
    }
    StuckIffUnclosed(trimmed);
    ItemsShorter(trimmed[1..], []);
    o := DoParse(trimmed);
  }

  lemma {:induction false} TrimmedStart(input: string)
    ensures var t := Trim(input); SkipSpaces(t) == t
  {
    FirstStays(SkipSpaces(input));
    NoSpaceFirst(input);
  }

  lemma {:induction false} NoSpaceFirst(s: string)
    ensures SkipSpaces(s) == [] || !IsSpace(SkipSpaces(s)[0])
    decreases |s|
  {
    if s != [] && IsSpace(s[0]) {
      NoSpaceFirst(s[1..]);
    }
  }

  lemma {:induction false} FirstStays(s: string)
    ensures DropTrailing(s) == [] || (s != [] && DropTrailing(s)[0] == s[0])
    decreases |s|
  {
    if s != [] && IsSpace(s[|s| - 1]) {
      FirstStays(s[..|s| - 1]);
    }
  }

  /** Parsing a printed list gives the list back and uses up the text. */
  method RoundTrip(v: Value) returns (o: Outcome)
    requires Clean(v) && v.List?
    ensures o == Parsed(v, "")
  {
    var os := Print(v, "");
    assert "" + Printed(v) == Printed(v);
    PrintedEnds(v);
    o := Parse(os);
  }

  /** A list that is not closed, at a concrete input. */
  lemma {:induction false} UnclosedList()
    ensures ParseValue("(a b") == Stuck
  {
    var t := "(a b";
    StuckIffUnclosed(t);
    OneOpen("a b");
    assert t == "(" + "a b" && SkipSpaces(t) == t;
  }

  lemma {:induction false} OneOpen(s: string)
    requires forall c | c in s :: c != '(' && c != ')'
    ensures Unclosed("(" + s)
  {
    var t := "(" + s;
    OpensFirst(t);
    FlatText(s);
    assert t[1..] == s;
    forall k | 1 <= k <= |t| ensures Opens(t[..k]) > Closes(t[..k]) { assert Depth(s[..k - 1]) >= 0; }
  }
}
