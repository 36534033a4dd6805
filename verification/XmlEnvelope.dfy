// The XML form of an OCS response: escaping, and what a reader makes of the printed document.
module XmlEnvelope {
  import opened Wrappers
  import opened Texts

  // ---------- escaping ----------

  function Replace(s: string, c: char, r: string): string {
    if s == "" then "" else (if s[0] == c then r else [s[0]]) + Replace(s[1..], c, r)
  }

  function Entity(c: char): string {
    if c == '&' then "&amp;" else if c == '<' then "&lt;" else if c == '>' then "&gt;"
    else if c == '"' then "&quot;" else if c == '\'' then "&apos;" else [c]
  }

  // What five replacements in a row should amount to: each character on its own.
  function Escape(s: string): string {
    if s == "" then "" else Entity(s[0]) + Escape(s[1..])
  }

  lemma {:induction false} ReplaceConcat(s: string, t: string, c: char, r: string)
    ensures Replace(s + t, c, r) == Replace(s, c, r) + Replace(t, c, r)
    decreases |s|
  {
    if s == "" {
      assert s + t == t;
    } else {
      assert (s + t)[0] == s[0] && (s + t)[1..] == s[1..] + t;
      ReplaceConcat(s[1..], t, c, r);
    }
  }

  function FiveReplacements(s: string): string {
    var r := Replace(Replace(Replace(s, '&', "&amp;"), '<', "&lt;"), '>', "&gt;");
    Replace(Replace(r, '"', "&quot;"), '\'', "&apos;")
  }

  lemma {:induction false} ReplaceAbsent(s: string, c: char, r: string)
    requires c !in s
    ensures Replace(s, c, r) == s
    decreases |s|
  {
    if s != "" {
      ReplaceAbsent(s[1..], c, r);
    }
  }

  lemma ReplaceOne(c: char, d: char, r: string)
    ensures Replace([c], d, r) == if c == d then r else [c]
  {
    assert [c][1..] == "" && r + "" == r && [c] + "" == [c];
  }

  function LastFour(s: string): string {
    LastThree(Replace(s, '<', "&lt;"))
  }

  function LastThree(s: string): string {
    LastTwo(Replace(s, '>', "&gt;"))
  }

  function LastTwo(s: string): string {
    Replace(Replace(s, '"', "&quot;"), '\'', "&apos;")
  }

  // A later replacement never touches what an earlier one put in.
  lemma OneCharacter(c: char)
    ensures FiveReplacements([c]) == Entity(c)
  {
    var e := Replace([c], '&', "&amp;");
    assert FiveReplacements([c]) == LastFour(e);
    ReplaceOne(c, '&', "&amp;");
    FromFour(e, c);
  }

  lemma FromFour(e: string, c: char)
    requires e == if c == '&' then Entity(c) else [c]
    ensures LastFour(e) == Entity(c)
  {
    if c == '<' { ReplaceOne(c, '<', "&lt;"); } else { ReplaceAbsent(e, '<', "&lt;"); }
    FromThree(Replace(e, '<', "&lt;"), c);
  }

  lemma FromThree(e: string, c: char)
    requires e == if c == '&' || c == '<' then Entity(c) else [c]
    ensures LastThree(e) == Entity(c)
  {
    if c == '>' { ReplaceOne(c, '>', "&gt;"); } else { ReplaceAbsent(e, '>', "&gt;"); }
    FromTwo(Replace(e, '>', "&gt;"), c);
  }

  lemma FromTwo(e: string, c: char)
    requires e == if c in "&<>" then Entity(c) else [c]
    ensures LastTwo(e) == Entity(c)
  {
    if c == '"' { ReplaceOne(c, '"', "&quot;"); } else { ReplaceAbsent(e, '"', "&quot;"); }
    FromOne(Replace(e, '"', "&quot;"), c);
  }

  lemma FromOne(e: string, c: char)
    requires e == if c == '\'' then [c] else Entity(c)
    ensures Replace(e, '\'', "&apos;") == Entity(c)
  {
    if c == '\'' { ReplaceOne(c, '\'', "&apos;"); } else { ReplaceAbsent(e, '\'', "&apos;"); }
  }

  lemma FiveConcat(s: string, t: string)
    ensures FiveReplacements(s + t) == FiveReplacements(s) + FiveReplacements(t)
  {
    ReplaceConcat(s, t, '&', "&amp;");
    var s1, t1 := Replace(s, '&', "&amp;"), Replace(t, '&', "&amp;");
    ReplaceConcat(s1, t1, '<', "&lt;");
    var s2, t2 := Replace(s1, '<', "&lt;"), Replace(t1, '<', "&lt;");
    ReplaceConcat(s2, t2, '>', "&gt;");
    var s3, t3 := Replace(s2, '>', "&gt;"), Replace(t2, '>', "&gt;");
    ReplaceConcat(s3, t3, '"', "&quot;");
    ReplaceConcat(Replace(s3, '"', "&quot;"), Replace(t3, '"', "&quot;"), '\'', "&apos;");
  }

  lemma {:induction false} FiveIsEscape(s: string)
    ensures FiveReplacements(s) == Escape(s)
    decreases |s|
  {
    if s != "" {
      assert s == [s[0]] + s[1..];
      FiveConcat([s[0]], s[1..]);
      OneCharacter(s[0]);
      FiveIsEscape(s[1..]);
    }
  }

  method XmlEscape(s: string) returns (r: string)
    ensures r == Escape(s)
  {
    r := Replace(s, '&', "&amp;");
    r := Replace(r, '<', "&lt;");
    r := Replace(r, '>', "&gt;");
    r := Replace(r, '"', "&quot;");
    r := Replace(r, '\'', "&apos;");
    FiveIsEscape(s);
  }

  // The character that escaped text begins with; a bare special character is refused.
  function Head(t: string): (h: Option<char>)
    requires t != ""
    ensures h.Some? ==> Entity(h.value) <= t
  {
    if "&amp;" <= t then Some('&')
    else if "&lt;" <= t then Some('<')
    else if "&gt;" <= t then Some('>')
    else if "&quot;" <= t then Some('"')
    else if "&apos;" <= t then Some('\'')
    else if t[0] in "&<>\"'" then None
    else Some(t[0])
  }

  // Reading text back through the predefined entities.
  function Unescape(t: string): Option<string>
    decreases |t|
  {
    if t == "" then Some("")
    else
      match Head(t)
      case None => None
      case Some(c) =>
        match Unescape(t[|Entity(c)|..])
        case None => None
        case Some(s) => Some([c] + s)
  }

  lemma HeadOfEntity(c: char, t: string)
    ensures Head(Entity(c) + t) == Some(c)
  {
    var s, e := Entity(c) + t, Entity(c);
    assert s[..|e|] == e && s[0] == e[0];
    if |e| > 1 {
      assert e <= s && s[1] == e[1] && s[2] == e[2];
    }
  }

  lemma {:induction false} UnescapeEscape(s: string)
    ensures Unescape(Escape(s)) == Some(s)
    decreases |s|
  {
    if s != "" {
      UnescapeEscape(s[1..]);
      UnescapeNext(s[0], Escape(s[1..]), s[1..]);
      assert [s[0]] + s[1..] == s;
    }
  }

  lemma UnescapeNext(c: char, t: string, s: string)
    requires Unescape(t) == Some(s)
    ensures Unescape(Entity(c) + t) == Some([c] + s)
  {
    HeadOfEntity(c, t);
    DropEntity(Entity(c), t);
  }

  lemma DropEntity(e: string, t: string)
    ensures (e + t)[|e|..] == t
  {
  }

  // Escaped text reads back as what it was, and nothing else reads back at all.
  lemma {:induction false} UnescapeIff(t: string, s: string)
    ensures Unescape(t) == Some(s) <==> t == Escape(s)
    decreases |t|
  {
    UnescapeEscape(s);
    if t != "" && Unescape(t) == Some(s) {
      var c := Head(t).value;
      var rest := t[|Entity(c)|..];
      assert t == Entity(c) + rest && s[0] == c && Unescape(rest) == Some(s[1..]);
      UnescapeIff(rest, s[1..]);
    }
  }

  // ---------- printing ----------

  datatype Json =
    | Null | Bool(b: bool) | Number(text: string) | Str(s: string)
    | Array(items: seq<Json>) | Object(fields: seq<Field>)

  datatype Field = Field(key: string, value: Json)

  function Element(name: string, content: string): string {
    "<" + name + ">" + content + "</" + name + ">"
  }

  function Print(v: Json): string {
    match v
    case Null => ""
    case Bool(b) => if b then "true" else "false"
    case Number(text) => text
    case Str(s) => Escape(s)
    case Array(items) => PrintItems(items)
    case Object(fields) => PrintFields(fields)
  }

  function PrintItems(items: seq<Json>): string {
    if items == [] then "" else Element("element", Print(items[0])) + PrintItems(items[1..])
  }

  function PrintFields(fields: seq<Field>): string {
    if fields == [] then "" else Element(Escape(fields[0].key), Print(fields[0].value)) + PrintFields(fields[1..])
  }

  method WriteValue(out: string, v: Json) returns (r: string)
    ensures r == out + Print(v)
    decreases v, 0
  {
    match v
    case Null =>
      r := out;
    case Bool(b) =>
      r := out + (if b then "true" else "false");
    case Number(text) =>
      r := out + text;
    case Str(s) =>
      var e := XmlEscape(s);
      r := out + e;
    case Array(items) =>
      r := WriteItems(out, items);
    case Object(fields) =>
      r := WriteFields(out, fields);
  }

  method WriteItems(out: string, items: seq<Json>) returns (r: string)
    ensures r == out + PrintItems(items)
    decreases items, 2
  {
    r := out;
    ghost var sofar := "";
    for i := 0 to |items|
      invariant r == out + sofar && PrintItems(items) == sofar + PrintItems(items[i..])
    {
      ghost var e := Element("element", Print(items[i]));
      r := WriteElement(r, "element", items[i]);
      assert items[i..][1..] == items[i + 1..];
      Regroup(out, sofar, e, PrintItems(items[i + 1..]));
      sofar := sofar + e;
    }
    assert items[|items|..] == [];
  }

  method WriteFields(out: string, fields: seq<Field>) returns (r: string)
    ensures r == out + PrintFields(fields)
    decreases fields, 2
  {
    r := out;
    ghost var sofar := "";
    for i := 0 to |fields|
      invariant r == out + sofar && PrintFields(fields) == sofar + PrintFields(fields[i..])
    {
      var tag := XmlEscape(fields[i].key);
      ghost var e := Element(tag, Print(fields[i].value));
      r := WriteElement(r, tag, fields[i].value);
      assert fields[i..][1..] == fields[i + 1..];
      Regroup(out, sofar, e, PrintFields(fields[i + 1..]));
      sofar := sofar + e;
    }
    assert fields[|fields|..] == [];
  }

  lemma Regroup(a: string, b: string, c: string, d: string)
    ensures (a + b) + c == a + (b + c) && b + (c + d) == (b + c) + d
  {
  }

  method WriteElement(out: string, tag: string, v: Json) returns (r: string)
    ensures r == out + Element(tag, Print(v))
    decreases v, 1
  {
    r := out + ("<" + tag + ">");
    r := WriteValue(r, v);
    r := r + ("</" + tag + ">");
    assert r == out + Element(tag, Print(v));
  }

  // ---------- reading ----------

  predicate NameStart(c: char) {
    var n := c as int;
    || c == ':' || c == '_' || 'A' <= c <= 'Z' || 'a' <= c <= 'z'
    || 0xC0 <= n <= 0xD6 || 0xD8 <= n <= 0xF6 || 0xF8 <= n <= 0x2FF || 0x370 <= n <= 0x37D || 0x37F <= n <= 0x1FFF
    || 0x200C <= n <= 0x200D || 0x2070 <= n <= 0x218F || 0x2C00 <= n <= 0x2FEF || 0x3001 <= n <= 0xD7FF
    || 0xF900 <= n <= 0xFDCF || 0xFDF0 <= n <= 0xFFFD || 0x10000 <= n <= 0xEFFFF
  }

  predicate NameChar(c: char) {
    var n := c as int;
    NameStart(c) || c == '-' || c == '.' || '0' <= c <= '9' || n == 0xB7 || 0x300 <= n <= 0x36F || 0x203F <= n <= 0x2040
  }

  // The Name production, section 2.3 of XML 1.0 Fifth Edition.
  predicate IsName(s: string) {
    s != "" && NameStart(s[0]) && forall i :: 0 <= i < |s| ==> NameChar(s[i])
  }

  datatype Node = Text(s: string) | Elem(name: string, children: seq<Node>)

  // An element that is open, and what came before it.
  datatype Frame = Frame(name: string, before: seq<Node>)

  // Reads a document into a tree: an end tag closes the element on top of the stack, the text
  // between two tags is read through the predefined entities.
  function Read(s: string, stack: seq<Frame>, nodes: seq<Node>): Option<seq<Node>>
    decreases |s|, 0
  {
    if s == "" then if stack == [] then Some(nodes) else None
    else if s[0] != '<' then
      var t := UpTo(s, '<');
      match Unescape(t)
      case None => None
      case Some(text) => Read(s[|t|..], stack, nodes + [Text(text)])
    else
      var tag := UpTo(s[1..], '>');
      if |tag| == |s[1..]| then None else ReadTag(s[|tag| + 2..], tag, stack, nodes)
  }

  function ReadTag(rest: string, tag: string, stack: seq<Frame>, nodes: seq<Node>): Option<seq<Node>>
    decreases |rest|, 1
  {
    if tag != "" && tag[0] == '/' then
      if stack != [] && stack[|stack| - 1].name == tag[1..] && IsName(tag[1..])
      then Read(rest, stack[..|stack| - 1], stack[|stack| - 1].before + [Elem(tag[1..], nodes)])
      else None
    else if IsName(tag) then Read(rest, stack + [Frame(tag, nodes)], [])
    else None
  }

  // What a value says: an element for each item or field, in order, around what that item or
  // field says, and the text of a leaf.
  function Tree(v: Json): seq<Node> {
    match v
    case Null => []
    case Bool(b) => Leaf(if b then "true" else "false")
    case Number(text) => Leaf(text)
    case Str(s) => Leaf(s)
    case Array(items) => ItemTrees(items)
    case Object(fields) => FieldTrees(fields)
  }

  function ItemTrees(items: seq<Json>): seq<Node> {
    if items == [] then [] else [Elem("element", Tree(items[0]))] + ItemTrees(items[1..])
  }

  function FieldTrees(fields: seq<Field>): seq<Node> {
    if fields == [] then [] else [Elem(fields[0].key, Tree(fields[0].value))] + FieldTrees(fields[1..])
  }

  function Leaf(text: string): seq<Node> {
    if text == "" then [] else [Text(text)]
  }

  predicate AllNames(v: Json) {
    match v
    case Array(items) => forall i :: 0 <= i < |items| ==> AllNames(items[i])
    case Object(fields) => forall i :: 0 <= i < |fields| ==> IsName(fields[i].key) && AllNames(fields[i].value)
    case _ => true
  }

  // A number prints without markup.
  predicate PlainNumbers(v: Json) {
    match v
    case Number(text) => Escape(text) == text
    case Array(items) => forall i :: 0 <= i < |items| ==> PlainNumbers(items[i])
    case Object(fields) => forall i :: 0 <= i < |fields| ==> PlainNumbers(fields[i].value)
    case _ => true
  }

  lemma {:induction false} EscapeChars(s: string)
    ensures '<' !in Escape(s) && '>' !in Escape(s)
    ensures IsName(s) ==> Escape(s) == s
    ensures IsName(Escape(s)) ==> IsName(s)
    ensures s != "" ==> Escape(s) != "" && (Escape(s)[0] == '/' <==> s[0] == '/')
  {
    EscapeFacts(s);
    if s != "" {
      assert Escape(s)[0] == Entity(s[0])[0];
    }
  }

  predicate NameChars(s: string) {
    forall i :: 0 <= i < |s| ==> NameChar(s[i])
  }

  lemma NameCharsConcat(s: string, t: string)
    ensures NameChars(s + t) <==> NameChars(s) && NameChars(t)
  {
    if NameChars(s + t) {
      assert forall i :: 0 <= i < |s| ==> s[i] == (s + t)[i];
      assert forall i :: 0 <= i < |t| ==> t[i] == (s + t)[|s| + i];
    }
  }

  lemma EntityChars(c: char)
    ensures '<' !in Entity(c) && '>' !in Entity(c)
    ensures NameChars(Entity(c)) || NameChar(c) ==> Entity(c) == [c]
    ensures NameChar(c) <==> NameChars(Entity(c))
  {
    assert !NameChar('&') && Entity(c)[0] == if c in "&<>\"'" then '&' else c;
    assert c in "&<>\"'" ==> !NameChar(c);
  }

  lemma {:induction false} EscapeFacts(s: string)
    ensures '<' !in Escape(s) && '>' !in Escape(s)
    ensures NameChars(s) <==> NameChars(Escape(s))
    ensures NameChars(s) ==> Escape(s) == s
    decreases |s|
  {
    if s != "" {
      EscapeFacts(s[1..]);
      EntityChars(s[0]);
      assert s == [s[0]] + s[1..];
      NameCharsConcat([s[0]], s[1..]);
      NameCharsConcat(Entity(s[0]), Escape(s[1..]));
      assert [s[0]][0] == s[0];
    }
  }

  // Reading goes on after `content` with its nodes added - or stops with an error.  What
  // follows a text has to be a tag.
  ghost predicate ReadsOver(content: string, ended: bool, ok: bool, nodes: seq<Node>) {
    forall r, st, before :: ended || r == "" || r[0] == '<' ==>
      Read(content + r, st, before) == if ok then Read(r, st, before + nodes) else None
  }

  lemma ReadsOverConcat(a: string, ended: bool, p: bool, x: seq<Node>, b: string, q: bool, y: seq<Node>)
    requires ReadsOver(a, ended, p, x) && ReadsOver(b, false, q, y) && (ended || (b != "" && b[0] == '<'))
    ensures ReadsOver(a + b, false, p && q, x + y)
  {
    forall r, st, before | r == "" || r[0] == '<'
      ensures Read((a + b) + r, st, before) == if p && q then Read(r, st, before + (x + y)) else None
    {
      assert (a + b) + r == a + (b + r) && (before + x) + y == before + (x + y);
      assert b != "" ==> (b + r)[0] == b[0];
    }
  }

  lemma NothingReads(ended: bool)
    ensures ReadsOver("", ended, true, [])
  {
    forall r, st, before: seq<Node>
      ensures Read("" + r, st, before) == Read(r, st, before + [])
    {
      assert "" + r == r && before + [] == before;
    }
  }

  lemma LeafReads(text: string)
    ensures ReadsOver(Escape(text), false, true, Leaf(text))
  {
    EscapeChars(text);
    if text == "" {
      NothingReads(false);
    } else {
      forall r, st, before | r == "" || r[0] == '<'
        ensures Read(Escape(text) + r, st, before) == Read(r, st, before + [Text(text)])
      {
        UnescapeEscape(text);
        TextRead(Escape(text), r, text, st, before);
      }
    }
  }

  lemma {:induction false} Whole(t: string, c: char)
    requires c !in t
    ensures UpTo(t, c) == t
    decreases |t|
  {
    if t != "" {
      Whole(t[1..], c);
    }
  }

  lemma TextRead(t: string, r: string, text: string, stack: seq<Frame>, before: seq<Node>)
    requires t != "" && '<' !in t && (r == "" || r[0] == '<') && Unescape(t) == Some(text)
    ensures Read(t + r, stack, before) == Read(r, stack, before + [Text(text)])
  {
    var s := t + r;
    assert s[0] == t[0] && s[|t|..] == r;
    if r == "" {
      assert s == t;
      Whole(t, '<');
    } else {
      assert s == t + ['<'] + r[1..];
      UpToIs(t, '<', r[1..]);
    }
  }

  // Reading one tag.
  lemma TagReads(tag: string, rest: string, stack: seq<Frame>, before: seq<Node>)
    requires '>' !in tag
    ensures Read("<" + tag + ">" + rest, stack, before) == ReadTag(rest, tag, stack, before)
  {
    var s := "<" + tag + ">" + rest;
    assert s[0] == '<' && s[1..] == tag + ['>'] + rest;
    UpToIs(tag, '>', rest);
    assert s[|tag| + 2..] == rest;
  }

  // An element is read over exactly if its name is one and its content is read over.
  lemma ElementReads(name: string, content: string, ok: bool, nodes: seq<Node>)
    requires '>' !in name && ReadsOver(content, false, ok, nodes)
    ensures ReadsOver(Element(name, content), true, ok && IsName(name), [Elem(name, nodes)])
  {
    forall r, st, before
      ensures Read(Element(name, content) + r, st, before) ==
              if ok && IsName(name) then Read(r, st, before + [Elem(name, nodes)]) else None
    {
      ElementRead(name, content, ok, nodes, r, st, before);
    }
  }

  lemma ElementText(name: string, content: string, rest: string)
    ensures Element(name, content) + rest == "<" + name + ">" + (content + ("<" + ("/" + name) + ">" + rest))
    ensures Element(name, content)[0] == '<'
  {
  }

  lemma ElementRead(name: string, content: string, ok: bool, nodes: seq<Node>, rest: string, stack: seq<Frame>,
                    before: seq<Node>)
    requires '>' !in name && ReadsOver(content, false, ok, nodes)
    ensures Read(Element(name, content) + rest, stack, before) ==
            if ok && IsName(name) then Read(rest, stack, before + [Elem(name, nodes)]) else None
  {
    var close := "<" + ("/" + name) + ">" + rest;
    ElementText(name, content, rest);
    TagReads(name, content + close, stack, before);
    if IsName(name) {
      NamedElement(name, content, ok, nodes, rest, stack, before);
    } else {
      UnnamedElement(name, content, ok, nodes, rest, stack, before);
    }
  }

  lemma NamedElement(name: string, content: string, ok: bool, nodes: seq<Node>, rest: string, stack: seq<Frame>,
                     before: seq<Node>)
    requires '>' !in name && IsName(name) && ReadsOver(content, false, ok, nodes)
    ensures ReadTag(content + ("<" + ("/" + name) + ">" + rest), name, stack, before) ==
            if ok then Read(rest, stack, before + [Elem(name, nodes)]) else None
  {
    var close, inner := "<" + ("/" + name) + ">" + rest, stack + [Frame(name, before)];
    assert NameStart(name[0]) && name[0] != '/' && close[0] == '<';
    assert Read(content + close, inner, []) == if ok then Read(close, inner, [] + nodes) else None;
    EndReads(name, rest, inner, nodes);
    assert inner[..|stack|] == stack && [] + nodes == nodes;
  }

  // What is not a name is refused as a start tag, or as the end tag of something else.
  lemma UnnamedElement(name: string, content: string, ok: bool, nodes: seq<Node>, rest: string, stack: seq<Frame>,
                       before: seq<Node>)
    requires '>' !in name && !IsName(name) && ReadsOver(content, false, ok, nodes)
    ensures ReadTag(content + ("<" + ("/" + name) + ">" + rest), name, stack, before) == None
  {
    var close := "<" + ("/" + name) + ">" + rest;
    assert close[0] == '<';
    if name != "" && name[0] == '/' && stack != [] && IsName(name[1..]) {
      var outer, closed := stack[..|stack| - 1], stack[|stack| - 1].before + [Elem(name[1..], before)];
      assert Read(content + close, outer, closed) == if ok then Read(close, outer, closed + nodes) else None;
      EndReads(name, rest, outer, closed + nodes);
    }
  }

  // Reading an end tag.
  lemma EndReads(name: string, rest: string, stack: seq<Frame>, nodes: seq<Node>)
    requires '>' !in name
    ensures
      Read("<" + ("/" + name) + ">" + rest, stack, nodes) ==
      if stack != [] && stack[|stack| - 1].name == name && IsName(name)
      then Read(rest, stack[..|stack| - 1], stack[|stack| - 1].before + [Elem(name, nodes)])
      else None
  {
    var slash := "/" + name;
    assert slash[0] == '/' && slash[1..] == name;
    TagReads(slash, rest, stack, nodes);
  }

  lemma SameNodes(content: string, ok: bool, nodes: seq<Node>, nodes': seq<Node>)
    requires ReadsOver(content, false, ok, nodes) && (ok ==> nodes == nodes')
    ensures ReadsOver(content, false, ok, nodes')
  {
  }

  // A printed value reads back as what the value says exactly if every key is a name, and is
  // refused otherwise.
  lemma {:induction false} PrintReads(v: Json)
    requires PlainNumbers(v)
    ensures ReadsOver(Print(v), false, AllNames(v), Tree(v))
    decreases v, 0
  {
    match v
    case Null =>
      NothingReads(false);
    case Bool(b) =>
      EscapeTruth();
      LeafReads(if b then "true" else "false");
    case Number(text) =>
      LeafReads(text);
    case Str(s) =>
      LeafReads(s);
    case Array(items) =>
      ItemsRead(items);
    case Object(fields) =>
      FieldsRead(fields);
  }

  lemma EscapeTruth()
    ensures Escape("true") == "true" && Escape("false") == "false"
  {
    PlainEscape("true");
    PlainEscape("false");
  }

  lemma {:induction false} ItemsRead(items: seq<Json>)
    requires forall i :: 0 <= i < |items| ==> PlainNumbers(items[i])
    ensures ReadsOver(PrintItems(items), false, AllNames(Array(items)), ItemTrees(items))
    decreases items, 1
  {
    if items == [] {
      NothingReads(false);
    } else {
      var v, more := items[0], items[1..];
      PrintReads(v);
      assert NameStart('e') && IsName("element");
      ElementReads("element", Print(v), AllNames(v), Tree(v));
      ItemsRead(more);
      ReadsOverConcat(Element("element", Print(v)), true, AllNames(v), [Elem("element", Tree(v))],
                      PrintItems(more), AllNames(Array(more)), ItemTrees(more));
      OneMoreItem(items);
    }
  }

  lemma OneMoreItem(items: seq<Json>)
    requires items != []
    ensures AllNames(Array(items)) <==> AllNames(items[0]) && AllNames(Array(items[1..]))
  {
    assert items == [items[0]] + items[1..];
  }

  lemma {:induction false} FieldsRead(fields: seq<Field>)
    requires forall i :: 0 <= i < |fields| ==> PlainNumbers(fields[i].value)
    ensures ReadsOver(PrintFields(fields), false, AllNames(Object(fields)), FieldTrees(fields))
    decreases fields, 1
  {
    if fields == [] {
      NothingReads(false);
    } else {
      var f, more := fields[0], fields[1..];
      PrintReads(f.value);
      FieldsRead(more);
      FieldRead(f, more);
      OneMoreField(fields);
    }
  }

  lemma FieldRead(f: Field, more: seq<Field>)
    requires ReadsOver(Print(f.value), false, AllNames(f.value), Tree(f.value))
    requires ReadsOver(PrintFields(more), false, AllNames(Object(more)), FieldTrees(more))
    ensures ReadsOver(Element(Escape(f.key), Print(f.value)) + PrintFields(more), false,
                      AllNames(f.value) && IsName(f.key) && AllNames(Object(more)),
                      [Elem(f.key, Tree(f.value))] + FieldTrees(more))
  {
    var tag, ok, rest := Escape(f.key), AllNames(f.value) && IsName(f.key), AllNames(Object(more));
    EscapeChars(f.key);
    ElementReads(tag, Print(f.value), AllNames(f.value), Tree(f.value));
    ReadsOverConcat(Element(tag, Print(f.value)), true, ok, [Elem(tag, Tree(f.value))], PrintFields(more), rest,
                    FieldTrees(more));
    SameNodes(Element(tag, Print(f.value)) + PrintFields(more), ok && rest,
              [Elem(tag, Tree(f.value))] + FieldTrees(more), [Elem(f.key, Tree(f.value))] + FieldTrees(more));
  }

  lemma OneMoreField(fields: seq<Field>)
    requires fields != []
    ensures AllNames(Object(fields)) <==>
            IsName(fields[0].key) && AllNames(fields[0].value) && AllNames(Object(fields[1..]))
  {
    assert fields == [fields[0]] + fields[1..];
  }

  // ---------- the envelope ----------

  function Meta(status: string, code: string, message: string): string {
    "\n    " + (Element("status", Escape(status)) + ("\n    " + (Element("statuscode", code) +
    ("\n    " + (Element("message", Escape(message)) + "\n  ")))))
  }

  function Body(status: string, code: string, message: string, data: Json): string {
    "\n  " + (Element("meta", Meta(status, code, message)) + ("\n  " + (Element("data", Print(data)) + "\n")))
  }

  function MetaTree(status: string, code: string, message: string): seq<Node> {
    [Text("\n    ")] + ([Elem("status", Leaf(status))] + ([Text("\n    ")] + ([Elem("statuscode", Leaf(code))] +
    ([Text("\n    ")] + ([Elem("message", Leaf(message))] + [Text("\n  ")])))))
  }

  function BodyTree(status: string, code: string, message: string, data: Json): seq<Node> {
    [Text("\n  ")] + ([Elem("meta", MetaTree(status, code, message))] + ([Text("\n  ")] +
    ([Elem("data", Tree(data))] + [Text("\n")])))
  }

  // After the declaration the response reads back as one element with the status, the code,
  // the message and the data's tree - exactly if every key of the data is a name.
  lemma EnvelopeReads(status: string, code: string, message: string, data: Json)
    requires Escape(code) == code && PlainNumbers(data)
    ensures Read(Element("ocs", Body(status, code, message, data)) + "\n", [], []) ==
            if AllNames(data) then Some([Elem("ocs", BodyTree(status, code, message, data)), Text("\n")]) else None
  {
    MetaReads(status, code, message);
    PrintReads(data);
    BodyReads(status, code, message, data);
    ElementReads("ocs", Body(status, code, message, data), AllNames(data), BodyTree(status, code, message, data));
    assert NameStart('o') && IsName("ocs");
    var end: seq<Node> := [] + [Elem("ocs", BodyTree(status, code, message, data))];
    LineReads("\n");
    assert Read("\n" + "", [], end) == Read("", [], end + [Text("\n")]);
    assert "\n" + "" == "\n";
    assert end + [Text("\n")] == [Elem("ocs", BodyTree(status, code, message, data)), Text("\n")];
  }

  lemma LineReads(line: string)
    requires line == "\n" || line == "\n  " || line == "\n    "
    ensures ReadsOver(line, false, true, [Text(line)])
  {
    Blank(line);
    LeafReads(line);
    assert Leaf(line) == [Text(line)];
  }

  lemma Blank(line: string)
    requires line == "\n" || line == "\n  " || line == "\n    "
    ensures Escape(line) == line
  {
    forall i | 0 <= i < |line|
      ensures line[i] !in "&<>\"'"
    {
      assert line[i] == '\n' || line[i] == ' ';
    }
    PlainEscape(line);
  }

  lemma {:induction false} PlainEscape(s: string)
    requires forall i :: 0 <= i < |s| ==> s[i] !in "&<>\"'"
    ensures Escape(s) == s
    decreases |s|
  {
    if s != "" {
      PlainEscape(s[1..]);
    }
  }

  lemma MetaReads(status: string, code: string, message: string)
    requires Escape(code) == code
    ensures ReadsOver(Meta(status, code, message), false, true, MetaTree(status, code, message))
  {
    var a, b, c := Element("status", Escape(status)), Element("statuscode", code), Element("message", Escape(message));
    var x, y, z := [Elem("status", Leaf(status))], [Elem("statuscode", Leaf(code))], [Elem("message", Leaf(message))];
    var line := [Text("\n    ")];
    assert NameStart('s') && NameStart('m') && IsName("status") && IsName("statuscode") && IsName("message");
    NamedLeaf("status", status);
    NamedLeaf("statuscode", code);
    NamedLeaf("message", message);
    LineReads("\n    ");
    LineReads("\n  ");
    LineElement(c, z, "\n  ", [Text("\n  ")]);
    LineElement(b, y, "\n    " + (c + "\n  "), line + (z + [Text("\n  ")]));
    LineElement(a, x, "\n    " + (b + ("\n    " + (c + "\n  "))), line + (y + (line + (z + [Text("\n  ")]))));
  }

  lemma NamedLeaf(name: string, text: string)
    requires IsName(name)
    ensures ReadsOver(Element(name, Escape(text)), true, true, [Elem(name, Leaf(text))])
    ensures Element(name, Escape(text))[0] == '<'
  {
    EscapeChars(name);
    LeafReads(text);
    ElementReads(name, Escape(text), true, Leaf(text));
    ElementText(name, Escape(text), "");
  }

  // An element on a line of its own.
  lemma LineElement(e: string, x: seq<Node>, rest: string, y: seq<Node>)
    requires ReadsOver(e, true, true, x) && e != "" && e[0] == '<' && ReadsOver(rest, false, true, y)
    ensures ReadsOver("\n    " + (e + rest), false, true, [Text("\n    ")] + (x + y))
  {
    LineReads("\n    ");
    ReadsOverConcat(e, true, true, x, rest, true, y);
    assert (e + rest)[0] == e[0];
    ReadsOverConcat("\n    ", false, true, [Text("\n    ")], e + rest, true, x + y);
  }

  lemma BodyReads(status: string, code: string, message: string, data: Json)
    requires ReadsOver(Meta(status, code, message), false, true, MetaTree(status, code, message))
    requires ReadsOver(Print(data), false, AllNames(data), Tree(data))
    ensures ReadsOver(Body(status, code, message, data), false, AllNames(data), BodyTree(status, code, message, data))
  {
    var a, b := Element("meta", Meta(status, code, message)), Element("data", Print(data));
    var x, y := [Elem("meta", MetaTree(status, code, message))], [Elem("data", Tree(data))];
    assert NameStart('m') && NameStart('d') && IsName("meta") && IsName("data");
    ElementReads("meta", Meta(status, code, message), true, MetaTree(status, code, message));
    ElementReads("data", Print(data), AllNames(data), Tree(data));
    ElementText("meta", Meta(status, code, message), "");
    ElementText("data", Print(data), "");
    LineReads("\n  ");
    LineReads("\n");
    var line, ok := [Text("\n  ")], AllNames(data);
    ReadsOverConcat(b, true, ok, y, "\n", true, [Text("\n")]);
    assert (b + "\n")[0] == '<';
    ReadsOverConcat("\n  ", false, true, line, b + "\n", ok, y + [Text("\n")]);
    ReadsOverConcat(a, true, true, x, "\n  " + (b + "\n"), ok, line + (y + [Text("\n")]));
    assert (a + ("\n  " + (b + "\n")))[0] == '<';
    ReadsOverConcat("\n  ", false, true, line, a + ("\n  " + (b + "\n")), ok, x + (line + (y + [Text("\n")])));
  }
}
