/**
 The circular api_data lists of api.c: how they are built, joined and printed.
 */
module ApiRing {
  import opened Common
  import opened ApiEscape

  // What a node holds: a quoted string, one that is escaped first, or the text snprintf made of a number.
  datatype Value = Quoted(text: string) | ToEscape(text: string) | Number(text: string)

  datatype Entry = Entry(name: string, value: Value)

  class Node {
    const entry: Entry
    var prev: Node?
    var next: Node?

    // The C node starts with both links undefined.
    constructor (entry: Entry)
      ensures this.entry == entry && prev == null && next == null
    {
      this.entry := entry;
      prev, next := null, null;
    }
  }

  ghost predicate Chain(s: seq<Node>)
    reads s
  {
    forall i | 0 <= i < |s| - 1 :: s[i].next == s[i + 1] && s[i + 1].prev == s[i]
  }

  // `root` is the first of the nodes `s`, whose links close into one circle.
  ghost predicate Ring(root: Node?, s: seq<Node>)
    reads s
  {
    if s == [] then root == null
    else root == s[0] && Distinct(s) && Chain(s) && s[|s| - 1].next == s[0] && s[0].prev == s[|s| - 1]
  }

  function Entries(s: seq<Node>): seq<Entry> {
    if s == [] then [] else [s[0].entry] + Entries(s[1..])
  }

  // ---------------------------------------------------------------- building

  // api_add_data_full
  method AddDataFull(root: Node?, entry: Entry, ghost s: seq<Node>) returns (r: Node, ghost s': seq<Node>)
    requires Ring(root, s)
    modifies s
    ensures |s'| == |s| + 1 && s'[..|s|] == s && fresh(s'[|s|]) && s'[|s|].entry == entry
    ensures Ring(r, s')
  {
    var node := new Node(entry);
    s' := s + [node];
    if root == null {
      r := node;
      r.prev := r;
      r.next := r;
    } else {
      r := root;
      node.prev := r.prev;
      r.prev := node;
      node.next := r;
      node.prev.next := node;
    }
  }

  lemma DistinctConcat(s: seq<Node>, t: seq<Node>)
    requires Distinct(s) && Distinct(t) && forall x | x in s :: x !in t
    ensures Distinct(s + t)
  {
    forall i, j | 0 <= i < j < |s + t| ensures (s + t)[i] != (s + t)[j] {
      if i < |s| <= j {
        assert s[i] in s && t[j - |s|] in t;
      }
    }
  }

  lemma RingsDistinct(root: Node?, extra: Node?, s: seq<Node>, t: seq<Node>)
    requires Ring(root, s) && Ring(extra, t) && forall x | x in s :: x !in t
    ensures Distinct(s + t)
  {
    DistinctConcat(s, t);
  }

  lemma DistinctParts(s: seq<Node>, t: seq<Node>)
    requires Distinct(s + t)
    ensures Distinct(s) && Distinct(t) && forall i, j | 0 <= i < |s| && 0 <= j < |t| :: s[i] != t[j]
  {
    var u := s + t;
    assert forall i | 0 <= i < |s| :: u[i] == s[i];
    assert forall i | 0 <= i < |t| :: u[|s| + i] == t[i];
    forall i, j | 0 <= i < |s| && 0 <= j < |t| ensures s[i] != t[j] {
      assert u[i] != u[|s| + j];
    }
  }

  // The four pointer writes that join two rings.
  method Join(root: Node, extra: Node, ghost s: seq<Node>, ghost t: seq<Node>)
    requires Ring(root, s) && Ring(extra, t) && Distinct(s + t)
    modifies s, t
    ensures Ring(root, s + t)
  {
    DistinctParts(s, t);
    var tail := extra.prev;
    extra.prev := root.prev;
    root.prev.next := extra;
    tail.next := root;
    root.prev := tail;
  }

  // api_add_extra
  method AddExtra(root: Node?, extra: Node?, ghost s: seq<Node>, ghost t: seq<Node>) returns (r: Node?)
    requires Ring(root, s) && Ring(extra, t)
    requires forall x | x in s :: x !in t
    modifies s, t
    ensures Ring(r, s + t)
  {
    RingsDistinct(root, extra, s, t);
    assert s == [] ==> s + t == t;
    assert t == [] ==> s + t == s;
    r := root;
    if r != null {
      if extra != null {
        hide Ring, Distinct;
        Join(r, extra, s, t);
      }
    } else {
      r := extra;
    }
  }

  // ---------------------------------------------------------------- printing

  ghost predicate Within(s: seq<Node>, all: set<Node>) {
    forall i | 0 <= i < |s| :: s[i] in all
  }

  // The step that ends the body of print_data's loop.
  method UnlinkHead(root: Node, ghost s: seq<Node>, ghost all: set<Node>) returns (r: Node?)
    requires Ring(root, s) && Within(s, all)
    modifies all
    ensures Ring(r, s[1..])
  {
    assert |s| > 1 ==> s[0].next == s[1];
    if root.next == root {
      r := null;
    } else {
      r := root.next;
      r.prev := root.prev;
      r.prev.next := r;
    }
  }

  // What `first` decides in print_data: every item but the first follows a comma.
  function Items(fs: seq<Entry>, isjson: bool, first: bool): string {
    if fs == [] then "" else (if first then "" else ",") + Item(fs[0], isjson) + Items(fs[1..], isjson, false)
  }

  function Quote(s: string, isjson: bool): string { if isjson then "\"" + s + "\"" else s }

  function Item(f: Entry, isjson: bool): string {
    Quote(f.name, isjson) + (if isjson then ":" else "=") + ValueText(f.value, isjson)
  }

  function ValueText(v: Value, isjson: bool): string {
    match v
    case Quoted(text) => Quote(text, isjson)
    case ToEscape(text) => Quote(Escape(text, isjson), isjson)
    case Number(text) => text
  }

  function Printed(fs: seq<Entry>, isjson: bool, precom: bool): string {
    (if precom then "," else "") + (if isjson then "{" else "") + Items(fs, isjson, true) + if isjson then "}" else "|"
  }

  // The item that the loop adds for one node.
  method AddItem(out: string, f: Entry, isjson: bool, first: bool) returns (out': string)
    ensures out' == out + ((if first then "" else ",") + Item(f, isjson))
  {
    out' := out;
    if !first {
      out' := out' + ",";
    }
    out' := out' + Quote(f.name, isjson) + (if isjson then ":" else "=");
    out' := out' + ValueText(f.value, isjson);
  }

  lemma RingHead(root: Node?, s: seq<Node>)
    requires Ring(root, s)
    ensures root == null <==> s == []
    ensures s != [] ==> s[0] == root
  {
  }

  // Once the nodes `s` are printed too, the text will be `target`.
  ghost predicate Towards(out: string, s: seq<Node>, isjson: bool, first: bool, target: string) {
    out + Items(Entries(s), isjson, first) == target
  }

  lemma Turn(out: string, s: seq<Node>, isjson: bool, first: bool, target: string)
    requires s != [] && Towards(out, s, isjson, first, target)
    ensures Towards(out + ((if first then "" else ",") + Item(s[0].entry, isjson)), s[1..], isjson, false, target)
  {
    assert Entries(s)[1..] == Entries(s[1..]);
    Associative(out, (if first then "" else ",") + Item(s[0].entry, isjson), Items(Entries(s[1..]), isjson, false));
  }

  // The body of the loop.
  method PrintNode(out: string, root: Node, isjson: bool, first: bool, ghost s: seq<Node>, ghost all: set<Node>,
                   ghost target: string)
      returns (out': string, r: Node?)
    requires Ring(root, s) && Within(s, all) && Towards(out, s, isjson, first, target)
    modifies all
    ensures s != [] && root == s[0] && Ring(r, s[1..])
    ensures Towards(out', s[1..], isjson, false, target)
  {
    hide Towards, Item, Ring;
    RingHead(root, s);
    Turn(out, s, isjson, first, target);
    out' := AddItem(out, root.entry, isjson, first);
    r := UnlinkHead(root, s, all);
  }

  ghost predicate Parted(freed: seq<Node>, rest: seq<Node>, s: seq<Node>) { freed + rest == s }

  lemma MoveHead(freed: seq<Node>, rest: seq<Node>, s: seq<Node>, all: set<Node>)
    requires rest != [] && Parted(freed, rest, s) && Within(rest, all)
    ensures Parted(freed + [rest[0]], rest[1..], s) && Within(rest[1..], all)
  {
  }

  lemma AllPrinted(out: string, isjson: bool, first: bool, target: string, freed: seq<Node>, s: seq<Node>)
    requires Towards(out, [], isjson, first, target) && Parted(freed, [], s)
    ensures out == target && freed == s
  {
  }

  // `freed` are the nodes that are unlinked, in the order they are freed.
  method PrintNodes(out: string, root: Node?, isjson: bool, ghost s: seq<Node>, ghost all: set<Node>)
      returns (out': string, end: Node?, ghost freed: seq<Node>)
    requires Ring(root, s) && Within(s, all)
    modifies all
    ensures out' == out + Items(Entries(s), isjson, true)
    ensures end == null && freed == s
  {
    end, freed, out' := root, [], out;
    ghost var rest, target := s, out + Items(Entries(s), isjson, true);
    var first := true;
    assert Towards(out', rest, isjson, first, target) && Parted(freed, rest, s);
    hide Towards, Items, Entries, Ring, Within, Parted;
    while end != null
      invariant Ring(end, rest) && Within(rest, all) && Towards(out', rest, isjson, first, target)
      invariant Parted(freed, rest, s)
      decreases |rest|
    {
      RingHead(end, rest);
      MoveHead(freed, rest, s, all);
      out', end := PrintNode(out', end, isjson, first, rest, all, target);
      first := false;
      freed, rest := freed + [rest[0]], rest[1..];
    }
    RingHead(end, rest);
    AllPrinted(out', isjson, first, target, freed, s);
  }

  // print_data
  method PrintData(root: Node?, isjson: bool, precom: bool, ghost s: seq<Node>)
      returns (out: string, end: Node?, ghost freed: seq<Node>)
    requires Ring(root, s)
    modifies s
    ensures out == Printed(Entries(s), isjson, precom)
    ensures end == null && freed == s
  {
    out := (if precom then "," else "") + (if isjson then "{" else "");
    out, end, freed := PrintNodes(out, root, isjson, s, set x | x in s);
    out := out + if isjson then "}" else "|";
  }

  // ---------------------------------------------------------------- any way of building a list

  datatype Script = Empty | Add(before: Script, entry: Entry) | Extra(before: Script, extra: Script)

  function Inserted(script: Script): seq<Entry> {
    match script
    case Empty => []
    case Add(before, entry) => Inserted(before) + [entry]
    case Extra(before, extra) => Inserted(before) + Inserted(extra)
  }

  lemma {:induction false} EntriesConcat(s: seq<Node>, t: seq<Node>)
    ensures Entries(s + t) == Entries(s) + Entries(t)
  {
    if s == [] {
      assert s + t == t;
    } else {
      EntriesConcat(s[1..], t);
      assert (s + t)[1..] == s[1..] + t;
      Consed(s[0].entry, Entries(s[1..]), Entries(t));
    }
  }

  lemma Consed(e: Entry, a: seq<Entry>, b: seq<Entry>)
    ensures [e] + (a + b) == ([e] + a) + b
  {
  }

  // Whatever sequence of the two calls made it, the list holds the fields in the order of insertion.
  method Build(script: Script) returns (root: Node?, ghost s: seq<Node>)
    ensures fresh(s) && Ring(root, s) && Entries(s) == Inserted(script)
  {
    match script {
      case Empty =>
        root, s := null, [];
      case Add(before, entry) =>
        root, s := Build(before);
        ghost var s0 := s;
        root, s := AddDataFull(root, entry, s);
        EntriesConcat(s0, [s[|s0|]]);
        assert s == s0 + [s[|s0|]];
      case Extra(before, extra) =>
        root, s := Build(before);
        var root', t := Build(extra);
        root := AddExtra(root, root', s, t);
        EntriesConcat(s, t);
        s := s + t;
    }
  }

  // ---------------------------------------------------------------- the text form reads back

  datatype Pair = Pair(name: string, value: string)

  function Pairs(es: seq<Entry>): seq<Pair> {
    if es == [] then [] else [Pair(es[0].name, es[0].value.text)] + Pairs(es[1..])
  }

  // What a reader who undoes the backslashes makes of the n items of a line.
  function ReadItems(t: string, n: nat): seq<Pair>
    decreases n
  {
    if n == 0 then []
    else
      var end := if n == 1 then '|' else ',';
      var value := Rest('=', t);
      [Pair(Field('=', t), Field(end, value))] + ReadItems(Rest(end, value), n - 1)
  }

  // The names in use and the values that are not escaped must not need escaping.
  predicate Readable(e: Entry) {
    CountSpecial(e.name, false) == 0 && (e.value.ToEscape? || CountSpecial(e.value.text, false) == 0)
  }

  // The name and the value; only a string that asks for it is escaped.
  lemma ItemText(e: Entry)
    ensures Item(e, false) == e.name + "=" + if e.value.ToEscape? then Escape(e.value.text, false) else e.value.text
    ensures Readable(e) ==> Item(e, false) == Escape(e.name, false) + "=" + Escape(e.value.text, false)
  {
    NothingToEscape(e.name, false);
    NothingToEscape(e.value.text, false);
  }

  lemma ReadOne(e: Entry, end: char, tail: string)
    requires Readable(e) && (end == ',' || end == '|')
    ensures Field('=', Item(e, false) + [end] + tail) == e.name
    ensures Field(end, Rest('=', Item(e, false) + [end] + tail)) == e.value.text
    ensures Rest(end, Rest('=', Item(e, false) + [end] + tail)) == tail
  {
    hide Item, Field, Rest, Escape;
    ItemText(e);
    var value := Escape(e.value.text, false) + [end] + tail;
    assert Item(e, false) + [end] + tail == Escape(e.name, false) + ['='] + value;
    FieldOfEscaped('=', e.name, value, false);
    FieldOfEscaped(end, e.value.text, tail, false);
  }

  lemma {:induction false} ItemsReadBack(es: seq<Entry>)
    requires es != [] && forall e | e in es :: Readable(e)
    ensures ReadItems(Items(es, false, true) + "|", |es|) == Pairs(es)
    decreases |es|
  {
    hide Item, Field, Rest;
    var line := Items(es, false, true) + "|";
    if |es| == 1 {
      assert es[1..] == [] && line == Item(es[0], false) + ['|'] + "";
      ReadOne(es[0], '|', "");
    } else {
      var more := es[1..];
      var tail := Items(more, false, true) + "|";
      assert Items(more, false, false) == "," + Items(more, false, true);
      assert line == Item(es[0], false) + [','] + tail;
      ReadOne(es[0], ',', tail);
      ItemsReadBack(more);
    }
  }

  // What stands behind `c`, which must come first.
  function After(c: char, t: string): string { if t != "" && t[0] == c then t[1..] else "" }

  // Every printed line gives back the names and the original values: the escapes hide no separator.
  lemma PrintedReadsBack(es: seq<Entry>, precom: bool)
    requires es != [] && forall e | e in es :: Readable(e)
    ensures var t := Printed(es, false, precom);
      ReadItems(if precom then After(',', t) else t, |es|) == Pairs(es)
  {
    hide Items, ReadItems, Printed, After, Pairs;
    ItemsReadBack(es);
    PrintedText(es, precom);
    Behind(',', Items(es, false, true) + "|");
  }

  lemma Behind(c: char, t: string)
    ensures After(c, [c] + t) == t
  {
  }

  lemma PrintedText(es: seq<Entry>, precom: bool)
    ensures var line := Items(es, false, true) + "|";
      Printed(es, false, precom) == if precom then [','] + line else line
  {
    hide Items;
    var items := Items(es, false, true);
    assert "," + "" + items + "|" == [','] + (items + "|") && "" + "" + items + "|" == items + "|";
  }

  // ---------------------------------------------------------------- and so does the JSON form

  // The names and values of the n members of an object, up to its closing brace. A value is in quotes, in which
  // a backslash quotes the next character, or plain.
  function ReadMembers(t: string, n: nat): seq<Pair>
    decreases n
  {
    if n == 0 then []
    else
      var end := if n == 1 then '}' else ',';
      var name := After('"', t);
      var value := After(':', Rest('"', name));
      if value != "" && value[0] == '"' then
        var text := After('"', value);
        [Pair(Field('"', name), Field('"', text))] + ReadMembers(After(end, Rest('"', text)), n - 1)
      else [Pair(Field('"', name), Field(end, value))] + ReadMembers(Rest(end, value), n - 1)
  }

  // Numbers hold none of the characters that delimit them.
  predicate JsonReadable(e: Entry) {
    && CountSpecial(e.name, true) == 0
    && match e.value
       case ToEscape(_) => true
       case Quoted(text) => CountSpecial(text, true) == 0
       case Number(text) => '\\' !in text && '"' !in text && ',' !in text && '}' !in text
  }

  lemma {:induction false} PlainField(ch: char, text: string, tail: string)
    requires ch !in text && '\\' !in text
    ensures Field(ch, text + [ch] + tail) == text && Rest(ch, text + [ch] + tail) == tail
  {
    if text == "" {
      assert text + [ch] + tail == [ch] + tail;
    } else {
      PlainField(ch, text[1..], tail);
      assert (text + [ch] + tail)[1..] == text[1..] + [ch] + tail;
    }
  }

  // The member as it stands in an object: the value in quotes unless it is a number, and escaped only if asked.
  lemma MemberText(e: Entry)
    ensures Item(e, true) == "\"" + e.name + "\":" +
      match e.value
      case Quoted(text) => "\"" + text + "\""
      case ToEscape(text) => "\"" + Escape(text, true) + "\""
      case Number(text) => text
  {
    hide Escape;
    var name := "\"" + e.name + "\"";
    assert name + ":" == "\"" + e.name + "\":";
  }

  lemma EscapedMember(e: Entry)
    requires JsonReadable(e)
    ensures Item(e, true) == "\"" + Escape(e.name, true) + "\":" +
      if e.value.Number? then e.value.text else "\"" + Escape(e.value.text, true) + "\""
  {
    MemberText(e);
    NothingToEscape(e.name, true);
    NothingToEscape(e.value.text, true);
    hide Escape, Item;
  }

  lemma ReadMember(e: Entry, n: nat, tail: string)
    requires JsonReadable(e) && n > 0
    ensures var end := if n == 1 then '}' else ',';
      ReadMembers(Item(e, true) + [end] + tail, n) == [Pair(e.name, e.value.text)] + ReadMembers(tail, n - 1)
  {
    hide Field, Rest, Escape, Item;
    EscapedMember(e);
    var end := if n == 1 then '}' else ',';
    var t := Item(e, true) + [end] + tail;
    var text := e.value.text;
    var value := (if e.value.Number? then text else "\"" + Escape(text, true) + "\"") + [end] + tail;
    assert t == ['"'] + (Escape(e.name, true) + ['"'] + ([':'] + value));
    FieldOfEscaped('"', e.name, [':'] + value, true);
    if e.value.Number? {
      assert value[0] != '"';
      PlainField(end, text, tail);
    } else {
      assert value == ['"'] + (Escape(text, true) + ['"'] + ([end] + tail));
      FieldOfEscaped('"', text, [end] + tail, true);
    }
  }

  lemma {:induction false} MembersReadBack(es: seq<Entry>)
    requires es != [] && forall e | e in es :: JsonReadable(e)
    ensures ReadMembers(Items(es, true, true) + "}", |es|) == Pairs(es)
    decreases |es|
  {
    hide Item, Field, Rest, ReadMembers;
    var line := Items(es, true, true) + "}";
    if |es| == 1 {
      assert es[1..] == [] && line == Item(es[0], true) + ['}'] + "";
      ReadMember(es[0], 1, "");
      NoMembers("");
    } else {
      var more := es[1..];
      var tail := Items(more, true, true) + "}";
      assert Items(more, true, false) == "," + Items(more, true, true);
      assert line == Item(es[0], true) + [','] + tail;
      ReadMember(es[0], |es|, tail);
      MembersReadBack(more);
    }
  }

  lemma NoMembers(t: string)
    ensures ReadMembers(t, 0) == []
  {
  }

  // Every printed object gives back the names and the original values.
  lemma PrintedObjectReadsBack(es: seq<Entry>, precom: bool)
    requires es != [] && forall e | e in es :: JsonReadable(e)
    ensures var t := Printed(es, true, precom);
      ReadMembers(After('{', if precom then After(',', t) else t), |es|) == Pairs(es)
  {
    hide Items, ReadMembers, Printed, After, Pairs;
    MembersReadBack(es);
    PrintedObject(es, precom);
    var body := Items(es, true, true) + "}";
    Behind('{', body);
    Behind(',', ['{'] + body);
  }

  lemma PrintedObject(es: seq<Entry>, precom: bool)
    ensures var text := ['{'] + (Items(es, true, true) + "}");
      Printed(es, true, precom) == if precom then [','] + text else text
  {
    hide Items;
    var items := Items(es, true, true);
    assert "," + "{" + items + "}" == [','] + (['{'] + (items + "}"));
    assert "" + "{" + items + "}" == ['{'] + (items + "}");
  }
}
