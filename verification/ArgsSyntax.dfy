/**
The command line: options with optional arguments, grouped into sections that may carry
a name.  The parser is a small state machine over the words; every insertion it makes is
recorded in order.
*/
module ArgsSyntax {
  import opened Wrappers

  /** The section options belong to before any section starts. */
  const MAIN_SECTION: char := '0'

  predicate IsUpper(c: char) { 'A' <= c <= 'Z' }

  predicate IsLower(c: char) { 'a' <= c <= 'z' }

  predicate IsAlpha(c: char) { IsUpper(c) || IsLower(c) }

  predicate IsAlnum(c: char) { IsAlpha(c) || '0' <= c <= '9' }

  /** word[0] of a C string: the terminator when the word is empty. */
  function At0(word: string): char { if word == "" then '\0' else word[0] }

  /** One call of insert_args. */
  datatype Insertion = Insertion(section: char, name: Option<string>, option: char, arg: Option<string>)

  datatype Parsed = Parsed(ok: bool, inserted: seq<Insertion>)

  function Prepend(x: Insertion, p: Parsed): Parsed { Parsed(p.ok, [x] + p.inserted) }

  predicate IsDashWord(word: string) { |word| == 2 && word[0] == '-' }

  /** parse_args on the words from the current one on. */
  function Parse(words: seq<string>, section: char, name: Option<string>): Parsed
    decreases |words|
  {
    if words == [] then Parsed(true, [])
    else if !IsDashWord(words[0]) then Parsed(false, [])
    else
      var c := words[0][1];
      if IsUpper(c) then
        if |words| == 1 then Parse([], c, name)
        else if IsAlnum(At0(words[1])) then Parse(words[2..], c, Some(words[1]))
        else Parse(words[1..], c, None)
      else if IsAlpha(c) then
        if |words| > 1 && At0(words[1]) != '-' then
          Prepend(Insertion(section, name, c, Some(words[1])), Parse(words[2..], section, name))
        else
          Prepend(Insertion(section, name, c, None), Parse(words[1..], section, name))
      else Parsed(c == '-', [])
  }

  // ---- the language the parser accepts ------------------------------------

  datatype Item =
    | Section(id: char, name: Option<string>)
    | Opt(option: char, arg: Option<string>)

  predicate WfItem(item: Item) {
    match item
    case Section(id, name) =>
      'A' <= id <= 'Z' &&
      (name.Some? ==> var c := At0(name.value); 'A' <= c <= 'Z' || 'a' <= c <= 'z' || '0' <= c <= '9')
    case Opt(option, arg) => 'a' <= option <= 'z' && (arg.Some? ==> At0(arg.value) != '-')
  }

  predicate WfItems(items: seq<Item>) { forall i | 0 <= i < |items| :: WfItem(items[i]) }

  function RenderItem(item: Item): seq<string> {
    match item
    case Section(id, name) => [['-', id]] + if name.Some? then [name.value] else []
    case Opt(option, arg) => [['-', option]] + if arg.Some? then [arg.value] else []
  }

  function Render(items: seq<Item>): seq<string> {
    if items == [] then [] else RenderItem(items[0]) + Render(items[1..])
  }

  /** The insertions a list of items stands for. */
  function Meaning(items: seq<Item>, section: char, name: Option<string>): seq<Insertion> {
    if items == [] then []
    else match items[0]
      case Section(id, n) => Meaning(items[1..], id, n)
      case Opt(option, arg) => [Insertion(section, name, option, arg)] + Meaning(items[1..], section, name)
  }

  /** The options among the items. */
  function Opts(items: seq<Item>): nat {
    if items == [] then 0 else (if items[0].Opt? then 1 else 0) + Opts(items[1..])
  }

  /** Item `j` starts the section that item `k` is in. */
  ghost predicate Starts(items: seq<Item>, j: nat, k: nat) {
    j < k <= |items| && items[j].Section? && forall i | j < i < k :: items[i].Opt?
  }

  /**
  Every option makes one insertion, in order, into the section that the last section word
  before it names, and under its name if it has one; without such a word, into the section
  the line begins in.
  */
  lemma {:induction false} MeaningAt(items: seq<Item>, section: char, name: Option<string>, k: nat)
    requires k < |items| && items[k].Opt?
    ensures |Meaning(items, section, name)| == Opts(items) && Opts(items[..k]) < Opts(items)
    ensures var x := Meaning(items, section, name)[Opts(items[..k])];
      && x.option == items[k].option && x.arg == items[k].arg
      && (forall j: nat | Starts(items, j, k) :: x.section == items[j].id && x.name == items[j].name)
      && ((forall j | 0 <= j < k :: items[j].Opt?) ==> x.section == section && x.name == name)
  {
    var first := items[0];
    var section', name' := if first.Section? then first.id else section, if first.Section? then first.name else name;
    var rest := items[1..];
    if k == 0 {
      MeaningLength(rest, section', name');
    } else {
      MeaningAt(rest, section', name', k - 1);
      assert items[..k][1..] == rest[..k - 1];
      forall j: nat | Starts(items, j, k) && j > 0 ensures Starts(rest, j - 1, k - 1) {
        forall i | j - 1 < i < k - 1 ensures rest[i].Opt? { assert items[i + 1].Opt?; }
      }
      if Starts(items, 0, k) {
        forall j | 0 <= j < k - 1 ensures rest[j].Opt? { assert items[j + 1].Opt?; }
      }
    }
  }

  lemma {:induction false} MeaningLength(items: seq<Item>, section: char, name: Option<string>)
    ensures |Meaning(items, section, name)| == Opts(items)
  {
    if items == [] {
    } else {
      match items[0] {
        case Section(id, n) => MeaningLength(items[1..], id, n);
        case Opt(_, _) => MeaningLength(items[1..], section, name);
      }
    }
  }

  /** What may follow the items: nothing, or the end-of-options word and anything behind it. */
  predicate IsTail(words: seq<string>) { words == [] || words[0] == "--" }

  lemma RenderStartsWithDash(items: seq<Item>, tail: seq<string>)
    requires IsTail(tail)
    ensures var words := Render(items) + tail; words == [] || (At0(words[0]) == '-' && IsDashWord(words[0]))
  {
    if items != [] { assert (Render(items) + tail)[0] == RenderItem(items[0])[0]; }
  }

  /**
  Round trip: parsing what a well-formed list of items renders to succeeds and makes
  exactly the insertions the items stand for, in order.
  */
  lemma {:induction false} ParseRender(items: seq<Item>, tail: seq<string>, section: char, name: Option<string>)
    requires WfItems(items) && IsTail(tail)
    ensures Parse(Render(items) + tail, section, name) == Parsed(true, Meaning(items, section, name))
    decreases |items|
  {
    if items == [] {
      assert Render(items) + tail == tail;
    } else {
      var rest := Render(items[1..]) + tail;
      RenderStartsWithDash(items[1..], tail);
      assert Render(items) + tail == RenderItem(items[0]) + rest;
      ParseItem(items[0], rest, section, name);
      match items[0] {
        case Section(id, n) => ParseRender(items[1..], tail, id, n);
        case Opt(option, arg) => ParseRender(items[1..], tail, section, name);
      }
    }
  }

  /** One item, followed by nothing or by a word that starts with a dash. */
  lemma ParseItem(item: Item, rest: seq<string>, section: char, name: Option<string>)
    requires WfItem(item) && (rest == [] || At0(rest[0]) == '-')
    ensures Parse(RenderItem(item) + rest, section, name) ==
      if item.Section? then Parse(rest, item.id, item.name)
      else Prepend(Insertion(section, name, item.option, item.arg), Parse(rest, section, name))
  {
    var words := RenderItem(item) + rest;
    assert words[|RenderItem(item)|..] == rest;
  }

  /**
  The converse: the parser accepts nothing else.  Whatever word list it accepts is the
  rendering of well-formed items, up to an end-of-options word, and it made the
  insertions those items stand for.
  */
  lemma {:induction false} AcceptedIsRendered(words: seq<string>, section: char, name: Option<string>)
    returns (items: seq<Item>, tail: seq<string>)
    requires Parse(words, section, name).ok
    ensures WfItems(items) && IsTail(tail) && words == Render(items) + tail
    ensures Parse(words, section, name).inserted == Meaning(items, section, name)
    decreases |words|
  {
    if words == [] || words[0] == "--" {
      return [], words;
    }
    var c := words[0][1];
    assert words[0] == ['-', c];
    var item, rest;
    if IsUpper(c) {
      var n := if |words| > 1 && IsAlnum(At0(words[1])) then Some(words[1]) else None;
      item := Section(c, n);
      rest := words[|RenderItem(item)|..];
      items, tail := AcceptedIsRendered(rest, c, if |words| == 1 then name else n);
      if |words| == 1 { RenderNotEmpty(items, tail); }
    } else {
      var arg := if |words| > 1 && At0(words[1]) != '-' then Some(words[1]) else None;
      item := Opt(c, arg);
      rest := words[|RenderItem(item)|..];
      items, tail := AcceptedIsRendered(rest, section, name);
    }
    assert words == RenderItem(item) + rest;
    RenderCons(item, items, tail);
    items := [item] + items;
  }

  lemma RenderCons(item: Item, items: seq<Item>, tail: seq<string>)
    ensures Render([item] + items) + tail == RenderItem(item) + (Render(items) + tail)
    ensures ([item] + items)[1..] == items
  {
  }

  lemma RenderNotEmpty(items: seq<Item>, tail: seq<string>)
    ensures items != [] ==> Render(items) + tail != []
  {
    if items != [] { assert |RenderItem(items[0])| > 0; }
  }

  /** A word list is accepted exactly when it is such a rendering. */
  lemma AcceptedIff(words: seq<string>, section: char, name: Option<string>)
    ensures Parse(words, section, name).ok <==>
      exists items, tail :: WfItems(items) && IsTail(tail) && words == Render(items) + tail
  {
    if Parse(words, section, name).ok {
      var items, tail := AcceptedIsRendered(words, section, name);
    }
    if items, tail :| WfItems(items) && IsTail(tail) && words == Render(items) + tail {
      ParseRender(items, tail, section, name);
    }
  }

  /** Sections and options of every insertion are ones the tables have a place for. */
  lemma {:induction false} InsertionsInRange(words: seq<string>, section: char, name: Option<string>)
    requires section == MAIN_SECTION || IsUpper(section)
    ensures forall x | x in Parse(words, section, name).inserted ::
      (x.section == MAIN_SECTION || IsUpper(x.section)) && IsLower(x.option)
    decreases |words|
  {
    if words != [] && IsDashWord(words[0]) {
      var c := words[0][1];
      if IsUpper(c) {
        if |words| > 1 && IsAlnum(At0(words[1])) {
          InsertionsInRange(words[2..], c, Some(words[1]));
        } else if |words| > 1 {
          InsertionsInRange(words[1..], c, None);
        }
      } else if IsAlpha(c) {
        if |words| > 1 && At0(words[1]) != '-' {
          InsertionsInRange(words[2..], section, name);
        } else {
          InsertionsInRange(words[1..], section, name);
        }
      }
    }
  }
}
