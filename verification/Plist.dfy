/** The property list parser as a function of the text, and the printer it inverts. */
module Plist {
  import opened Bytes
  import opened Texts
  import Strtoul

  const NUL: char := 0 as char

  datatype Kind = None | Dict | Key | Str | Integer | Data | Date | False | True | Array

  /** A tag's `string` field: unset, an interned string, or an integer stored in its place. */
  datatype Value = Null | Symbol(text: string) | Number(n: uint32)

  /** A tag with the tags of its list, or of its value, below it. */
  datatype Tag = Tag(kind: Kind, value: Value, kids: seq<Tag>)

  // ----- Tag names

  /** What the parser does with a tag name. */
  datatype Form = Header | List(kind: Kind, empty: bool) | Pair | Leaf(kind: Kind) | Bare(kind: Kind) | Unknown

  function Classify(name: string): Form {
    if "plist " <= name then Header
    else if name == "dict" then List(Dict, false)
    else if name == "dict/" then List(Dict, true)
    else if name == "key" then Pair
    else if name == "string" then Leaf(Str)
    else if name == "integer" then Leaf(Integer)
    else if name == "data" then Leaf(Data)
    else if name == "date" then Leaf(Date)
    else if name == "false/" then Bare(False)
    else if name == "true/" then Bare(True)
    else if name == "array" then List(Array, false)
    else if name == "array/" then List(Array, true)
    else Unknown
  }

  /** The name that opens a tag of this kind, and ends it after a slash. */
  function NameOf(kind: Kind): string {
    match kind
    case None => ""
    case Dict => "dict"
    case Key => "key"
    case Str => "string"
    case Integer => "integer"
    case Data => "data"
    case Date => "date"
    case False => "false/"
    case True => "true/"
    case Array => "array"
  }

  /** What a printed opening tag is to the parser. */
  function FormOf(kind: Kind): Form {
    match kind
    case None => Unknown
    case Dict => List(Dict, false)
    case Array => List(Array, false)
    case Key => Pair
    case False => Bare(False)
    case True => Bare(True)
    case _ => Leaf(kind)
  }

  lemma Names(kind: Kind)
    requires kind != None
    ensures Classify(NameOf(kind)) == FormOf(kind)
    ensures Classify("/" + NameOf(kind)) == Unknown
    ensures forall i :: 0 <= i < |NameOf(kind)| ==> NameOf(kind)[i] != NUL && NameOf(kind)[i] != '>'
  {
    var name := NameOf(kind);
    assert "plist " <= name ==> name[0] == "plist "[0];
    var ending := "/" + name;
    assert ending[0] == '/';
    assert "plist "[0] == 'p' && "dict"[0] == 'd' && "dict/"[0] == 'd' && "key"[0] == 'k' && "string"[0] == 's';
    assert "integer"[0] == 'i' && "data"[0] == 'd' && "date"[0] == 'd' && "false/"[0] == 'f' && "true/"[0] == 't';
    assert "array"[0] == 'a' && "array/"[0] == 'a';
  }

  /** The names of headers, and all names but the eleven that the parser knows. */
  predicate Ignored(name: string) {
    && (forall i :: 0 <= i < |name| ==> name[i] != NUL && name[i] != '>')
    && ("plist " <= name ||
        name !in {"dict", "dict/", "array", "array/", "key", "string", "integer", "data", "date", "false/", "true/"})
  }

  lemma Ends(kind: Kind)
    requires kind != None
    ensures Ignored("/" + NameOf(kind)) && Close(NameOf(kind)) == Open("/" + NameOf(kind))
  {
    Names(kind);
    var name := "/" + NameOf(kind);
    assert forall i :: 0 <= i < |name| ==> name[i] == (if i == 0 then '/' else NameOf(kind)[i - 1]);
    assert name[0] == '/';
    assert "dict"[0] == 'd' && "dict/"[0] == 'd' && "key"[0] == 'k' && "string"[0] == 's' && "integer"[0] == 'i';
    assert "data"[0] == 'd' && "date"[0] == 'd' && "false/"[0] == 'f' && "true/"[0] == 't' && "array"[0] == 'a';
    assert "array/"[0] == 'a';
  }

  // ----- Finding tags

  /** The text ends with a terminator, as every C string does. */
  predicate Terminated(s: string) {
    s != [] && s[|s| - 1] == NUL
  }

  /** The first place from `i` on that holds `c` or a terminator. */
  function Scan(s: string, i: nat, c: char): (j: nat)
    requires Terminated(s) && i < |s|
    ensures i <= j < |s| && (s[j] == NUL || s[j] == c)
    ensures forall k :: i <= k < j ==> s[k] != NUL && s[k] != c
    decreases |s| - i
  {
    if s[i] == NUL || s[i] == c then i else Scan(s, i + 1, c)
  }

  lemma ScanIs(s: string, i: nat, c: char, j: nat)
    requires Terminated(s) && i <= j < |s| && (s[j] == NUL || s[j] == c)
    requires forall k :: i <= k < j ==> s[k] != NUL && s[k] != c
    ensures Scan(s, i, c) == j
  {
  }

  /** The C string at `i`. */
  function CString(s: string, i: nat): string
    requires Terminated(s) && i < |s|
  {
    s[i..Scan(s, i, NUL)]
  }

  /** The angle brackets of a tag. */
  datatype Mark = NoMark | Mark(start: nat, end: nat)

  function NextTag(s: string, p: nat): (m: Mark)
    requires Terminated(s) && p < |s|
    ensures m.Mark? ==> p <= m.start < m.end && m.end + 1 < |s| && s[m.start] == '<' && s[m.end] == '>'
    ensures m.Mark? ==> forall k :: p <= k < m.start ==> s[k] != NUL && s[k] != '<'
    ensures m.Mark? ==> forall k :: m.start < k < m.end ==> s[k] != NUL && s[k] != '>'
  {
    var start := Scan(s, p, '<');
    if s[start] == NUL then NoMark else
      var end := Scan(s, start + 1, '>');
      if s[end] == NUL then NoMark else Mark(start, end)
  }

  function Name(s: string, m: Mark): string
    requires m.Mark? && m.start < m.end <= |s|
  {
    s[m.start + 1..m.end]
  }

  /** The first end tag `/tag` from `p` on. */
  function EndTag(s: string, p: nat, tag: string): (m: Mark)
    requires Terminated(s) && p < |s|
    ensures m.Mark? ==> p <= m.start < m.end && m.end + 1 < |s| && Name(s, m) == "/" + tag
    ensures m.Mark? ==> NextTag(s, p).Mark?
    decreases |s| - p
  {
    var m := NextTag(s, p);
    if m.NoMark? || Name(s, m) == "/" + tag then m else EndTag(s, m.end + 1, tag)
  }

  /** What the caller sees as the data before that end tag: it stops earlier, at the closing
      bracket of the first tag, when that is some other tag. */
  function Text(s: string, p: nat, tag: string): (t: string)
    requires Terminated(s) && p < |s| && EndTag(s, p, tag).Mark?
    ensures p + |t| < EndTag(s, p, tag).end && t == s[p..p + |t|] && NUL !in t
  {
    var m := NextTag(s, p);
    FirstBeforeEnd(s, p, tag);
    if Name(s, m) == "/" + tag then s[p..m.start] else s[p..m.end]
  }

  lemma FirstBeforeEnd(s: string, p: nat, tag: string)
    requires Terminated(s) && p < |s| && EndTag(s, p, tag).Mark?
    ensures var m := NextTag(s, p);
            m.Mark? && (if Name(s, m) == "/" + tag then EndTag(s, p, tag) == m else m.end < EndTag(s, p, tag).start)
    ensures var m := NextTag(s, p); NUL !in s[p..m.start] && NUL !in s[p..m.end]
  {
  }

  /** The data is kept whole exactly when no other tag begins in it. */
  lemma TextIsWhole(s: string, p: nat, tag: string)
    requires Terminated(s) && p < |s| && EndTag(s, p, tag).Mark?
    ensures var data := s[p..EndTag(s, p, tag).start];
            Text(s, p, tag) == data <==> '<' !in data
  {
    FirstBeforeEnd(s, p, tag);
    var m, end := NextTag(s, p), EndTag(s, p, tag).start;
    if Name(s, m) != "/" + tag {
      assert s[p..end][m.start - p] == '<';
      assert |Text(s, p, tag)| == m.end - p < end - p;
    }
  }

  /** Data with another tag in it loses that tag's last character and all that follows. */
  lemma TextIsCut()
    ensures var s := "a<b>c</key>" + [NUL];
            Terminated(s) && EndTag(s, 0, "key") == Mark(5, 10) && Text(s, 0, "key") == "a<b"
  {
    var s := "a<b>c</key>" + [NUL];
    assert s[1] == '<' && s[3] == '>' && s[5] == '<' && s[10] == '>';
    assert NextTag(s, 0) == Mark(1, 3) && NextTag(s, 4) == Mark(5, 10);
    assert Name(s, Mark(1, 3)) == "b" && Name(s, Mark(5, 10)) == "/key";
    assert "b"[0] != "/key"[0];
    assert s[0..3] == "a<b";
  }

  // ----- The parser

  /** No tag at all comes back from headers and unknown tags, which end a list. */
  datatype Outcome = Parsed(next: nat, tags: seq<Tag>) | Failed | Panicked

  function ParseNext(s: string, p: nat): (r: Outcome)
    requires Terminated(s) && p < |s|
    ensures r.Parsed? ==> p < r.next < |s| && |r.tags| <= 1
    decreases |s| - p, 0
  {
    var m := NextTag(s, p);
    if m.NoMark? then Failed else
      ParseForm(s, m.end + 1, Classify(Name(s, m)))
  }

  /** The rest of a tag whose name has been read. */
  function ParseForm(s: string, q: nat, form: Form): (r: Outcome)
    requires Terminated(s) && q < |s|
    ensures r.Parsed? ==> q <= r.next < |s| && |r.tags| <= 1
    decreases |s| - q, 2
  {
    match form
    case Header => Parsed(q, [])
    case List(kind, empty) => if empty then Parsed(q, [Tag(kind, Null, [])]) else ParseList(s, q, kind, [])
    case Pair => ParseKey(s, q)
    case Leaf(kind) => ParseLeaf(s, q, kind)
    case Bare(kind) => Parsed(q, [Tag(kind, Null, [])])
    case Unknown => Parsed(q, [])
  }

  function ParseList(s: string, p: nat, kind: Kind, items: seq<Tag>): (r: Outcome)
    requires Terminated(s) && p < |s|
    ensures r.Parsed? ==> p < r.next < |s| && |r.tags| == 1
    decreases |s| - p, 1
  {
    match ParseNext(s, p)
    case Failed => Failed
    case Panicked => Panicked
    case Parsed(q, tags) =>
      if tags == [] then Parsed(q, [Tag(kind, Null, items)]) else ParseList(s, q, kind, tags + items)
  }

  function ParseKey(s: string, p: nat): (r: Outcome)
    requires Terminated(s) && p < |s|
    ensures r.Parsed? ==> p < r.next < |s| && |r.tags| == 1
    decreases |s| - p, 1
  {
    var m := EndTag(s, p, "key");
    if m.NoMark? then Failed else
      match ParseNext(s, m.end + 1)
      case Failed => Failed
      case Panicked => Panicked
      case Parsed(q, tags) => Parsed(q, [Tag(Key, Symbol(Text(s, p, "key")), tags)])
  }

  function ParseLeaf(s: string, p: nat, kind: Kind): (r: Outcome)
    requires Terminated(s) && p < |s|
    ensures r.Parsed? ==> p < r.next < |s| && |r.tags| == 1
  {
    if kind == Integer && s[p] == '<' then Panicked else
      var m := EndTag(s, p, NameOf(kind));
      if m.NoMark? then Failed else
        Parsed(m.end + 1, [Tag(kind, LeafValue(kind, Text(s, p, NameOf(kind))), [])])
  }

  function LeafValue(kind: Kind, text: string): Value {
    if kind == Str then Symbol(text)
    else if kind == Integer then Number(Strtoul.ToUnsigned(text, 0))
    else Null
  }

  /** The first dictionary of the text; other tags are dropped. */
  function ParseFile(s: string, p: nat): (r: Outcome)
    requires Terminated(s) && p < |s|
    ensures r.Parsed? ==> |r.tags| == 1 && r.tags[0].kind == Dict
    decreases |s| - p
  {
    match ParseNext(s, p)
    case Failed => Failed
    case Panicked => Panicked
    case Parsed(q, tags) => if tags != [] && tags[0].kind == Dict then Parsed(q, tags) else ParseFile(s, q)
  }

  // ----- Printing

  /** Text that can stand between two tags. */
  predicate Clean(t: string) {
    forall i :: 0 <= i < |t| ==> t[i] != NUL && t[i] != '<'
  }

  /** A tag some document describes. */
  predicate Document(t: Tag)
    decreases t, 1
  {
    match t.kind
    case None => false
    case Dict => t.value == Null && Documents(t.kids)
    case Array => t.value == Null && Documents(t.kids)
    case Key => t.value.Symbol? && Clean(t.value.text) && |t.kids| == 1 && Documents(t.kids)
    case Str => t.value.Symbol? && Clean(t.value.text) && t.kids == []
    case Integer => t.value.Number? && t.kids == []
    case _ => t.value == Null && t.kids == []
  }

  predicate Documents(ts: seq<Tag>)
    decreases ts, 0
  {
    ts == [] || (Document(ts[0]) && Documents(ts[1..]))
  }

  function Open(name: string): string {
    "<" + name + ">"
  }

  function Close(name: string): string {
    "<" + ("/" + name) + ">"
  }

  /** How a document is written: what stands before each tag that the parser looks for, how
      integers are written, and whether an empty list is a single tag. */
  datatype Style = Style(sep: string, numeral: Strtoul.Numeral, short: bool)
  {
    predicate Valid() {
      Clean(sep) && numeral.Valid()
    }
  }

  /** The data of a leaf or of a key. */
  function Content(t: Tag, st: Style): string
    requires st.Valid()
  {
    match t.value
    case Null => ""
    case Symbol(text) => text
    case Number(n) => Strtoul.Printed(n, st.numeral)
  }

  predicate Short(t: Tag, st: Style) {
    st.short && t.kids == [] && t.kind in {Dict, Array}
  }

  function Print(t: Tag, st: Style): string
    requires st.Valid()
    decreases t, 1
  {
    if Short(t, st) then st.sep + Open(NameOf(t.kind) + "/") else st.sep + Open(NameOf(t.kind)) + Body(t, st)
  }

  function Body(t: Tag, st: Style): string
    requires st.Valid()
    decreases t, 0
  {
    match t.kind
    case Dict => PrintAll(t.kids, st) + (st.sep + Close("dict"))
    case Array => PrintAll(t.kids, st) + (st.sep + Close("array"))
    case Key => (Content(t, st) + Close("key")) + PrintAll(t.kids, st)
    case False => ""
    case True => ""
    case _ => Content(t, st) + Close(NameOf(t.kind))
  }

  function PrintAll(ts: seq<Tag>, st: Style): string
    requires st.Valid()
    decreases ts, 2
  {
    if ts == [] then "" else Print(ts[0], st) + PrintAll(ts[1..], st)
  }

  /** Every list of a dictionary or array turned round. */
  function Flip(t: Tag): Tag
    decreases t, 1
  {
    Tag(t.kind, t.value, FlipAll(t.kids))
  }

  function FlipAll(ts: seq<Tag>): (r: seq<Tag>)
    ensures |r| == |ts|
    decreases ts, 0
  {
    if ts == [] then [] else FlipAll(ts[1..]) + [Flip(ts[0])]
  }

  lemma {:induction false} FlipAllAt(ts: seq<Tag>, k: nat)
    requires k < |ts|
    ensures FlipAll(ts)[k] == Flip(ts[|ts| - 1 - k])
  {
    if k < |ts| - 1 {
      FlipAllAt(ts[1..], k);
    }
  }

  // ----- Numbers

  lemma EndOfText(t: string)
    ensures Strtoul.EndsAt(t, |t|)
  {
  }

  /** A 32-bit number survives being printed, in any base, and read back. */
  lemma NumberContent(n: uint32, f: Strtoul.Numeral)
    requires f.Valid()
    ensures Strtoul.ToUnsigned(Strtoul.Printed(n, f), 0) == n
    ensures Clean(Strtoul.Printed(n, f)) && Strtoul.Printed(n, f) != [] && Strtoul.Printed(n, f)[0] != '<'
  {
    hide Strtoul.ToUnsigned, Strtoul.Numerals, Strtoul.EndsAt;
    var t := Strtoul.Printed(n, f);
    EndOfText(t);
    assert "" + ("" + t) == t && t[0..|t|] == t;
    Strtoul.NumberRead(t, 0, "", "", n, f);
    Strtoul.NumeralsLetters(n, f);
  }

  // ----- Reading back what was printed

  lemma OccursWithout(s: string, p: nat, w: string, c: char)
    requires Occurs(s, p, w) && forall i :: 0 <= i < |w| ==> w[i] != NUL && w[i] != c
    ensures forall k :: p <= k < p + |w| ==> s[k] != NUL && s[k] != c
  {
    forall k | p <= k < p + |w|
      ensures s[k] != NUL && s[k] != c
    {
      assert s[k] == s[p..p + |w|][k - p];
    }
  }

  /** After clean text, the next tag is the one printed there. */
  lemma TagFound(s: string, p: nat, sep: string, name: string)
    requires Terminated(s) && p < |s| && Clean(sep) && Occurs(s, p, sep) && Occurs(s, p + |sep|, "<" + name + ">")
    requires forall i :: 0 <= i < |name| ==> name[i] != NUL && name[i] != '>'
    ensures NextTag(s, p) == Mark(p + |sep|, p + |sep| + 1 + |name|)
    ensures Name(s, NextTag(s, p)) == name
  {
    var start, end := p + |sep|, p + |sep| + 1 + |name|;
    OccursSplit(s, start, "<" + name, ">");
    OccursSplit(s, start, "<", name);
    OccursWithout(s, p, sep, '<');
    ScanIs(s, p, '<', start);
    OccursWithout(s, start + 1, name, '>');
    ScanIs(s, start + 1, '>', end);
  }

  /** Clean data up to its own end tag is read whole. */
  lemma ContentFound(s: string, p: nat, text: string, kind: Kind)
    requires Terminated(s) && p < |s| && Clean(text) && kind != None
    requires Occurs(s, p, text + Close(NameOf(kind)))
    ensures EndTag(s, p, NameOf(kind)) == Mark(p + |text|, p + |text| + |Close(NameOf(kind))| - 1)
    ensures Text(s, p, NameOf(kind)) == text
  {
    var name := NameOf(kind);
    Names(kind);
    OccursSplit(s, p, text, Close(name));
    assert forall i :: 0 <= i < |"/" + name| ==> ("/" + name)[i] == (if i == 0 then '/' else name[i - 1]);
    TagFound(s, p, text, "/" + name);
  }

  /** A printed opening tag is the next one found, and its body follows it. */
  lemma Opened(s: string, p: nat, sep: string, kind: Kind, body: string)
    requires Terminated(s) && p < |s| && Clean(sep) && kind != None
    requires Occurs(s, p, sep + Open(NameOf(kind)) + body)
    ensures var m := NextTag(s, p);
            m.Mark? && m.end + 1 == p + |sep + Open(NameOf(kind))| && Name(s, m) == NameOf(kind)
    ensures Occurs(s, p + |sep + Open(NameOf(kind))|, body)
  {
    OccursSplit(s, p, sep + Open(NameOf(kind)), body);
    OccursSplit(s, p, sep, Open(NameOf(kind)));
    Names(kind);
    TagFound(s, p, sep, NameOf(kind));
  }

  /** Parsing a printed document gives the document with its lists turned round, and takes
      exactly the printed characters. */
  lemma {:induction false} ParsePrinted(s: string, p: nat, t: Tag, st: Style)
    requires Terminated(s) && p < |s| && Document(t) && st.Valid() && Occurs(s, p, Print(t, st))
    ensures ParseNext(s, p) == Parsed(p + |Print(t, st)|, [Flip(t)])
    decreases t, 2
  {
    hide Classify, NextTag, Name, Occurs, Terminated, Clean, ParseForm, NameOf, Flip, Body, FormOf, Open, Short;
    if Short(t, st) {
      ShortParsed(s, p, t, st);
    } else {
      Opened(s, p, st.sep, t.kind, Body(t, st));
      Names(t.kind);
      BodyParsed(s, p + |st.sep + Open(NameOf(t.kind))|, t, st);
    }
  }

  lemma ShortParsed(s: string, p: nat, t: Tag, st: Style)
    requires Terminated(s) && p < |s| && Document(t) && st.Valid() && Short(t, st) && Occurs(s, p, Print(t, st))
    ensures ParseNext(s, p) == Parsed(p + |Print(t, st)|, [Flip(t)])
  {
    hide NextTag, Name, Occurs, Terminated, Clean, Classify, NameOf, Body, Documents, ParseList, ParseKey, ParseLeaf;
    var name := NameOf(t.kind) + "/";
    ShortNames(t.kind);
    OccursSplit(s, p, st.sep, Open(name));
    TagFound(s, p, st.sep, name);
  }

  lemma ShortNames(kind: Kind)
    requires kind in {Dict, Array}
    ensures Classify(NameOf(kind) + "/") == List(kind, true)
    ensures forall i :: 0 <= i <= |NameOf(kind)| ==> (NameOf(kind) + "/")[i] != NUL && (NameOf(kind) + "/")[i] != '>'
  {
    Names(kind);
    var name := NameOf(kind) + "/";
    assert name == (if kind == Dict then "dict/" else "array/");
    assert forall i :: 0 <= i < |NameOf(kind)| ==> name[i] == NameOf(kind)[i];
    assert "plist "[0] == 'p' && "dict/"[0] == 'd' && "array/"[0] == 'a' && "key"[0] == 'k' && "string"[0] == 's';
    assert "integer"[0] == 'i' && "data"[0] == 'd' && "date"[0] == 'd' && "false/"[0] == 'f' && "true/"[0] == 't';
    assert "dict"[0] == 'd' && |"dict/"| == 5 && |"data"| == 4 && |"date"| == 4 && |"dict"| == 4 && |"array"| == 5;
  }

  lemma {:induction false} BodyParsed(s: string, q: nat, t: Tag, st: Style)
    requires Terminated(s) && q < |s| && Document(t) && st.Valid() && Occurs(s, q, Body(t, st))
    ensures ParseForm(s, q, FormOf(t.kind)) == Parsed(q + |Body(t, st)|, [Flip(t)])
    decreases t, 1
  {
    hide Classify, NextTag, Name, EndTag, Text, Occurs, Terminated, PrintAll, ParseList, ParseKey, ParseLeaf, Clean,
         ParseNext, FlipAll, Close, Content, Documents;
    match t.kind {
      case Dict =>
        Ends(Dict);
        ListPrinted(s, q, t.kids, st, Dict, "/" + NameOf(Dict), []);
        assert FlipAll(t.kids) + [] == FlipAll(t.kids);
      case Array =>
        Ends(Array);
        ListPrinted(s, q, t.kids, st, Array, "/" + NameOf(Array), []);
        assert FlipAll(t.kids) + [] == FlipAll(t.kids);
      case Key =>
        KeyPrinted(s, q, t, st);
      case False =>
      case True =>
      case _ =>
        LeafPrinted(s, q, t, st);
    }
  }

  lemma OnlyOne(ts: seq<Tag>, st: Style)
    requires |ts| == 1 && Documents(ts) && st.Valid()
    ensures PrintAll(ts, st) == Print(ts[0], st) && FlipAll(ts) == [Flip(ts[0])] && Document(ts[0])
  {
    assert ts[1..] == [] && PrintAll(ts[1..], st) == "" && FlipAll(ts[1..]) == [];
  }

  lemma {:induction false} KeyPrinted(s: string, q: nat, t: Tag, st: Style)
    requires Terminated(s) && q < |s| && Document(t) && t.kind == Key && st.Valid() && Occurs(s, q, Body(t, st))
    ensures ParseKey(s, q) == Parsed(q + |Body(t, st)|, [Flip(t)])
    decreases t, 0
  {
    hide Classify, NextTag, Name, EndTag, Text, Occurs, Terminated, PrintAll, Clean, ParseNext, FlipAll, NameOf, Close,
         Print;
    var text := t.value.text;
    OccursSplit(s, q, text + Close("key"), PrintAll(t.kids, st));
    OnlyOne(t.kids, st);
    KeyFound(s, q, text);
    ParsePrinted(s, q + |text + Close("key")|, t.kids[0], st);
  }

  lemma KeyFound(s: string, q: nat, text: string)
    requires Terminated(s) && q < |s| && Clean(text) && Occurs(s, q, text + Close("key"))
    ensures EndTag(s, q, "key") == Mark(q + |text|, q + |text + Close("key")| - 1)
    ensures Text(s, q, "key") == text
  {
    ContentFound(s, q, text, Key);
  }

  lemma LeafPrinted(s: string, q: nat, t: Tag, st: Style)
    requires Terminated(s) && q < |s| && Document(t) && t.kind in {Str, Integer, Data, Date} && st.Valid()
    requires Occurs(s, q, Content(t, st) + Close(NameOf(t.kind)))
    ensures ParseLeaf(s, q, t.kind) == Parsed(q + |Content(t, st) + Close(NameOf(t.kind))|, [Flip(t)])
  {
    LeafContent(t, st);
    if t.kind == Integer {
      IntegerStart(s, q, t, st);
    }
    LeafParsed(s, q, t, st);
  }

  lemma LeafContent(t: Tag, st: Style)
    requires Document(t) && t.kind in {Str, Integer, Data, Date} && st.Valid()
    ensures Clean(Content(t, st)) && t.kids == [] && LeafValue(t.kind, Content(t, st)) == t.value
    ensures t.kind == Integer ==> Content(t, st) != [] && Content(t, st)[0] != '<'
  {
    if t.kind == Integer {
      NumberContent(t.value.n, st.numeral);
    }
  }

  lemma IntegerStart(s: string, q: nat, t: Tag, st: Style)
    requires st.Valid() && Occurs(s, q, Content(t, st) + Close(NameOf(t.kind)))
    requires Content(t, st) != [] && Content(t, st)[0] != '<'
    ensures s[q] != '<'
  {
    hide Content, Close, NameOf;
    OccursSplit(s, q, Content(t, st), Close(NameOf(t.kind)));
    assert s[q] == s[q..q + |Content(t, st)|][0];
  }

  lemma LeafParsed(s: string, q: nat, t: Tag, st: Style)
    requires st.Valid() && Terminated(s) && q < |s| && t.kind in {Str, Integer, Data, Date} && t.kids == []
    requires Clean(Content(t, st)) && LeafValue(t.kind, Content(t, st)) == t.value
    requires t.kind == Integer ==> s[q] != '<'
    requires Occurs(s, q, Content(t, st) + Close(NameOf(t.kind)))
    ensures ParseLeaf(s, q, t.kind) == Parsed(q + |Content(t, st) + Close(NameOf(t.kind))|, [Flip(t)])
  {
    hide Content, NameOf, EndTag, Text, LeafValue, Close, Occurs, Clean;
    ContentFound(s, q, Content(t, st), t.kind);
  }

  /** The items of a list up to the first ignored tag, whatever its name. */
  lemma {:induction false} ListPrinted(s: string, p: nat, ts: seq<Tag>, st: Style, kind: Kind, last: string,
                                       items: seq<Tag>)
    requires Terminated(s) && p < |s| && Documents(ts) && st.Valid() && Ignored(last)
    requires Occurs(s, p, PrintAll(ts, st) + (st.sep + Open(last)))
    ensures ParseList(s, p, kind, items) ==
            Parsed(p + |PrintAll(ts, st) + (st.sep + Open(last))|, [Tag(kind, Null, FlipAll(ts) + items)])
    decreases ts, 0
  {
    hide Classify, NextTag, Name, Occurs, Terminated, Clean, Print, ParseNext, Open, Flip, Ignored;
    var end := st.sep + Open(last);
    if ts == [] {
      assert PrintAll(ts, st) + end == end;
      IgnoredTag(s, p, st.sep, last);
      assert FlipAll(ts) + items == items;
    } else {
      var first, rest := Print(ts[0], st), PrintAll(ts[1..], st) + end;
      assert PrintAll(ts, st) + end == first + rest;
      OccursSplit(s, p, first, rest);
      ParsePrinted(s, p, ts[0], st);
      ListPrinted(s, p + |first|, ts[1..], st, kind, last, [Flip(ts[0])] + items);
      assert FlipAll(ts) + items == FlipAll(ts[1..]) + ([Flip(ts[0])] + items);
    }
  }

  /** Headers and unknown tags: they give no tag. */
  lemma IgnoredTag(s: string, p: nat, sep: string, name: string)
    requires Terminated(s) && p < |s| && Clean(sep) && Ignored(name) && Occurs(s, p, sep + Open(name))
    ensures ParseNext(s, p) == Parsed(p + |sep + Open(name)|, [])
  {
    hide NextTag, Name, Occurs, Terminated, Clean;
    OccursSplit(s, p, sep, Open(name));
    TagFound(s, p, sep, name);
  }

  /** A key before such a tag has nothing below it. */
  lemma KeyWithout(s: string, q: nat, text: string, sep: string, name: string)
    requires Terminated(s) && q < |s| && Clean(text) && Clean(sep) && Ignored(name)
    requires Occurs(s, q, (text + Close("key")) + (sep + Open(name)))
    ensures ParseKey(s, q) == Parsed(q + |(text + Close("key")) + (sep + Open(name))|, [Tag(Key, Symbol(text), [])])
  {
    hide Classify, NextTag, Name, EndTag, Text, Occurs, Terminated, Clean, ParseNext, Open, Close, Ignored;
    OccursSplit(s, q, text + Close("key"), sep + Open(name));
    KeyFound(s, q, text);
    IgnoredTag(s, q + |text + Close("key")|, sep, name);
  }

  /** An integer without a character before the next bracket stops the machine. */
  lemma EmptyInteger(s: string, p: nat, sep: string)
    requires Terminated(s) && p < |s| && Clean(sep) && Occurs(s, p, sep + Open("integer") + "<")
    ensures ParseNext(s, p) == Panicked
  {
    hide NextTag, Name, Occurs, Clean, Classify;
    Names(Integer);
    Opened(s, p, sep, Integer, "<");
    assert s[p + |sep + Open("integer")|] == '<' by {
      BracketAt(s, p + |sep + Open("integer")|);
    }
  }

  lemma BracketAt(s: string, p: nat)
    requires Occurs(s, p, "<")
    ensures s[p] == '<'
  {
  }

  /** The same for a whole text: nothing before the document, anything after it. */
  lemma RoundTrip(t: Tag, st: Style, after: string)
    requires Document(t) && st.Valid() && Terminated(after)
    ensures var s := Print(t, st) + after;
            Terminated(s) && ParseNext(s, 0) == Parsed(|Print(t, st)|, [Flip(t)])
  {
    ParsePrinted(Print(t, st) + after, 0, t, st);
  }

  /** Turning the lists round twice gives the document again. */
  lemma {:induction false} FlipTwice(t: Tag)
    ensures Flip(Flip(t)) == t
    decreases t, 1
  {
    FlipAllTwice(t.kids);
  }

  lemma {:induction false} FlipAllTwice(ts: seq<Tag>)
    ensures FlipAll(FlipAll(ts)) == ts
    decreases ts, 0
  {
    if ts != [] {
      FlipTwice(ts[0]);
      FlipAllTwice(ts[1..]);
      FlipAllSnoc(FlipAll(ts[1..]), Flip(ts[0]));
    }
  }

  lemma {:induction false} FlipAllSnoc(ts: seq<Tag>, t: Tag)
    ensures FlipAll(ts + [t]) == [Flip(t)] + FlipAll(ts)
  {
    if ts == [] {
      assert ts + [t] == [t] && FlipAll([t]) == FlipAll([]) + [Flip(t)];
    } else {
      assert (ts + [t])[1..] == ts[1..] + [t];
      FlipAllSnoc(ts[1..], t);
    }
  }

  // ----- Looking up a property

  /** What the search of a dictionary's list for `key` finds: the tags below the first match. */
  function Lookup(items: seq<Tag>, key: string): (r: seq<Tag>)
  {
    if items == [] then []
    else if items[0].kind == Key && items[0].value == Symbol(key) then items[0].kids
    else Lookup(items[1..], key)
  }

  lemma {:induction false} LookupConcat(a: seq<Tag>, b: seq<Tag>, key: string)
    ensures Lookup(a + b, key) ==
            if exists k :: 0 <= k < |a| && a[k].kind == Key && a[k].value == Symbol(key) then Lookup(a, key)
            else Lookup(b, key)
  {
    if a == [] {
      assert a + b == b;
    } else {
      assert (a + b)[1..] == a[1..] + b;
      LookupConcat(a[1..], b, key);
      assert forall k :: 1 <= k < |a| ==> a[k] == a[1..][k - 1];
    }
  }

  lemma LookupSkips(a: seq<Tag>, b: seq<Tag>, key: string)
    requires forall k :: 0 <= k < |a| ==> !(a[k].kind == Key && a[k].value == Symbol(key))
    ensures Lookup(a + b, key) == Lookup(b, key)
  {
    LookupConcat(a, b, key);
  }

  /** Since lists are stored turned round, the last of several equal keys of the document wins. */
  lemma LookupTakesLast(ts: seq<Tag>, j: nat)
    requires j < |ts| && ts[j].kind == Key && ts[j].value.Symbol?
    requires forall k :: j < k < |ts| ==> ts[k].kind == Key ==> ts[k].value != ts[j].value
    ensures Lookup(FlipAll(ts), ts[j].value.text) == FlipAll(ts[j].kids)
  {
    hide FlipAll;
    var key := ts[j].value.text;
    var items := FlipAll(ts);
    var i := |ts| - 1 - j;
    var front, back := items[..i], items[i..];
    forall k | 0 <= k < |front|
      ensures !(front[k].kind == Key && front[k].value == Symbol(key))
    {
      FlipAllAt(ts, k);
      assert front[k] == Flip(ts[|ts| - 1 - k]);
    }
    FlipAllAt(ts, i);
    assert items == front + back && back[0] == Flip(ts[j]);
    LookupSkips(front, back, key);
  }
}
