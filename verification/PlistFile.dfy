/** Property list files: headers, unknown tags and other documents before the first
    dictionary, and texts that end too early. */
module PlistFile {
  import opened Plist
  import opened Texts

  // ----- The dictionary of a file

  /** What may stand before the dictionary. */
  datatype Part = Skip(name: string) | Item(tag: Tag)

  predicate NoDictionary(part: Part) {
    match part
    case Skip(name) => Ignored(name)
    case Item(t) => Document(t) && t.kind != Dict
  }

  predicate NoDictionaries(parts: seq<Part>) {
    parts == [] || (NoDictionary(parts[0]) && NoDictionaries(parts[1..]))
  }

  function PrintPart(part: Part, st: Style): string
    requires st.Valid()
  {
    match part
    case Skip(name) => st.sep + Open(name)
    case Item(t) => Print(t, st)
  }

  function PrintParts(parts: seq<Part>, st: Style): string
    requires st.Valid()
  {
    if parts == [] then "" else PrintPart(parts[0], st) + PrintParts(parts[1..], st)
  }

  lemma PartSkipped(s: string, p: nat, part: Part, st: Style)
    requires Terminated(s) && p < |s| && NoDictionary(part) && st.Valid() && Occurs(s, p, PrintPart(part, st))
    ensures p + |PrintPart(part, st)| < |s| && ParseFile(s, p) == ParseFile(s, p + |PrintPart(part, st)|)
  {
    hide Occurs, Terminated, Clean, Ignored, Document, Print, ParseNext, Open;
    match part {
      case Skip(name) => IgnoredTag(s, p, st.sep, name);
      case Item(t) => ParsePrinted(s, p, t, st);
    }
  }

  lemma {:induction false} PartsSkipped(s: string, p: nat, parts: seq<Part>, st: Style)
    requires Terminated(s) && p < |s| && NoDictionaries(parts) && st.Valid() && Occurs(s, p, PrintParts(parts, st))
    ensures p + |PrintParts(parts, st)| < |s| && ParseFile(s, p) == ParseFile(s, p + |PrintParts(parts, st)|)
    decreases parts
  {
    hide Occurs, Terminated, Clean, NoDictionary, PrintPart, ParseNext;
    if parts != [] {
      OccursSplit(s, p, PrintPart(parts[0], st), PrintParts(parts[1..], st));
      PartSkipped(s, p, parts[0], st);
      PartsSkipped(s, p + |PrintPart(parts[0], st)|, parts[1..], st);
    }
  }

  predicate NoneBetween(s: string, i: nat, j: nat, c: char)
    requires j <= |s|
  {
    forall k :: i <= k < j ==> s[k] != NUL && s[k] != c
  }

  /** The text ends before a tag begins, or before the first one is closed. */
  ghost predicate Tagless(s: string) {
    Terminated(s) && exists i: nat, j: nat ::
      && i <= j < |s| && NoneBetween(s, 0, i, '<') && NoneBetween(s, i, j, '>') && s[j] == NUL
      && (i == j || s[i] == '<')
  }

  /** Headers, unknown tags and documents that are no dictionaries are passed over: the first
      dictionary is what the file gives, whatever comes after it. */
  lemma FirstDictionary(parts: seq<Part>, t: Tag, st: Style, after: string)
    requires NoDictionaries(parts) && Document(t) && t.kind == Dict && st.Valid() && Terminated(after)
    ensures var s := PrintParts(parts, st) + Print(t, st) + after;
            && Terminated(s)
            && ParseFile(s, 0) == Parsed(|PrintParts(parts, st) + Print(t, st)|, [Flip(t)])
  {
    hide Clean, NoDictionaries, PrintParts, ParseNext, Print, Document;
    var before := PrintParts(parts, st);
    var s := before + Print(t, st) + after;
    PartsSkipped(s, 0, parts, st);
    assert Occurs(s, |before|, Print(t, st));
    ParsePrinted(s, |before|, t, st);
  }

  /** Without a dictionary there is nothing to give. */
  lemma NothingToGive(parts: seq<Part>, st: Style, after: string)
    requires NoDictionaries(parts) && st.Valid() && Tagless(after)
    ensures var s := PrintParts(parts, st) + after;
            Terminated(s) && ParseFile(s, 0) == Failed
  {
    hide NoDictionaries, PrintParts, NextTag, Tagless;
    var before := PrintParts(parts, st);
    var s := before + after;
    assert Terminated(after) by {
      TaglessEnds(after);
    }
    PartsSkipped(s, 0, parts, st);
    NoTagFound(s, |before|, after);
  }

  lemma TaglessEnds(after: string)
    requires Tagless(after)
    ensures Terminated(after)
  {
  }

  lemma ScanMisses(s: string, i: nat, c: char, j: nat)
    requires Terminated(s) && i <= j < |s| && s[j] == NUL
    requires forall k :: i <= k < j ==> s[k] != c
    ensures s[Scan(s, i, c)] == NUL
  {
    assert Scan(s, i, c) <= j;
  }

  lemma NoneInTail(s: string, p: nat, i: nat, j: nat, c: char)
    requires p <= |s| && i <= j <= |s| - p && NoneBetween(s[p..], i, j, c)
    ensures NoneBetween(s, p + i, p + j, c)
  {
    forall k | p + i <= k < p + j
      ensures s[k] != NUL && s[k] != c
    {
      assert s[k] == s[p..][k - p];
    }
  }

  lemma NoTagFound(s: string, p: nat, after: string)
    requires Terminated(s) && p < |s| && s[p..] == after && Tagless(after)
    ensures NextTag(s, p).NoMark?
  {
    hide NextTag, NoneBetween;
    var i: nat, j: nat :|
      && i <= j < |after| && NoneBetween(after, 0, i, '<') && NoneBetween(after, i, j, '>') && after[j] == NUL
      && (i == j || after[i] == '<');
    assert s[p + i] == after[i] && s[p + j] == after[j];
    NoneInTail(s, p, 0, i, '<');
    NoneInTail(s, p, i, j, '>');
    NoTagBetween(s, p, p + i, p + j);
  }

  lemma NoTagBetween(s: string, p: nat, i: nat, j: nat)
    requires Terminated(s) && p <= i <= j < |s| && s[j] == NUL && (i == j || s[i] == '<')
    requires NoneBetween(s, p, i, '<') && NoneBetween(s, i, j, '>')
    ensures NextTag(s, p).NoMark?
  {
    ScanIs(s, p, '<', i);
    if i < j {
      ScanMisses(s, i + 1, '>', j);
    }
  }

  // ----- Texts cut short

  /** From `p` on the text is a beginning of `w`, but not all of it. */
  predicate Cut(s: string, p: nat, w: string) {
    Terminated(s) && p < |s| && s[p..|s| - 1] < w
  }

  lemma CutSplit(s: string, p: nat, a: string, b: string)
    requires Cut(s, p, a + b)
    ensures Cut(s, p, a) || (Occurs(s, p, a) && p + |a| < |s| && Cut(s, p + |a|, b))
  {
    var w := s[p..|s| - 1];
    if |w| >= |a| {
      assert s[p..p + |a|] == w[..|a|] == (a + b)[..|a|] == a;
      assert s[p + |a|..|s| - 1] == w[|a|..] == (a + b)[..|w|][|a|..] == b[..|w| - |a|];
    } else {
      assert w == (a + b)[..|w|] == a[..|w|];
    }
  }

  /** A tag that is cut short is none. */
  lemma TagCut(s: string, p: nat, sep: string, name: string)
    requires Clean(sep) && forall i :: 0 <= i < |name| ==> name[i] != NUL && name[i] != '>'
    requires Cut(s, p, sep + Open(name))
    ensures NextTag(s, p).NoMark?
  {
    var tag := sep + Open(name);
    var w := s[p..|s| - 1];
    assert forall k :: p <= k < |s| - 1 ==> s[k] == w[k - p];
    assert forall k :: 0 <= k < |w| ==> w[k] == tag[k];
    if |w| <= |sep| {
      assert forall k :: 0 <= k < |w| ==> tag[k] == sep[k];
      ScanMisses(s, p, '<', |s| - 1);
    } else {
      assert forall k :: 0 <= k < |sep| ==> tag[k] == sep[k];
      assert s[p + |sep|] == tag[|sep|] == '<';
      ScanIs(s, p, '<', p + |sep|);
      assert forall k :: 0 <= k < |name| ==> tag[|sep| + 1 + k] == name[k];
      forall k | p + |sep| + 1 <= k < |s| - 1
        ensures s[k] != '>'
      {
        assert s[k] == tag[k - p] == name[k - p - |sep| - 1];
      }
      ScanMisses(s, p + |sep| + 1, '>', |s| - 1);
    }
  }

  lemma ContentCut(s: string, p: nat, text: string, kind: Kind)
    requires Clean(text) && kind != None && Cut(s, p, text + Close(NameOf(kind)))
    ensures EndTag(s, p, NameOf(kind)).NoMark?
  {
    hide Cut, Clean, NextTag, Name, NameOf, Classify, Open, Close;
    Ends(kind);
    EndingClean(kind);
    TagCut(s, p, text, "/" + NameOf(kind));
  }

  lemma EndingClean(kind: Kind)
    requires kind != None
    ensures var name := "/" + NameOf(kind); forall i :: 0 <= i < |name| ==> name[i] != NUL && name[i] != '>'
  {
    Ends(kind);
  }

  /** A document that is cut short anywhere is refused. */
  lemma {:induction false} DocumentCut(s: string, p: nat, t: Tag, st: Style)
    requires Document(t) && st.Valid() && Cut(s, p, Print(t, st))
    ensures Terminated(s) && p < |s| && ParseNext(s, p) == Failed
    decreases t, 2
  {
    hide Classify, NextTag, Name, Occurs, Clean, ParseForm, NameOf, Body, FormOf, Open, Short;
    Names(t.kind);
    if Short(t, st) {
      ShortKind(t, st);
      ShortNames(t.kind);
      TagCut(s, p, st.sep, NameOf(t.kind) + "/");
    } else {
      CutSplit(s, p, st.sep + Open(NameOf(t.kind)), Body(t, st));
      if Cut(s, p, st.sep + Open(NameOf(t.kind))) {
        TagCut(s, p, st.sep, NameOf(t.kind));
      } else {
        HeadFound(s, p, st.sep, t.kind);
        BodyCut(s, p + |st.sep + Open(NameOf(t.kind))|, t, st);
      }
    }
  }

  lemma ShortKind(t: Tag, st: Style)
    requires Short(t, st)
    ensures t.kind in {Dict, Array}
  {
  }

  lemma HeadFound(s: string, p: nat, sep: string, kind: Kind)
    requires Terminated(s) && p < |s| && Clean(sep) && kind != None && Occurs(s, p, sep + Open(NameOf(kind)))
    ensures var m := NextTag(s, p);
            m.Mark? && m.end + 1 == p + |sep + Open(NameOf(kind))| && Name(s, m) == NameOf(kind)
  {
    var head := sep + Open(NameOf(kind));
    assert head + "" == head;
    Opened(s, p, sep, kind, "");
  }

  lemma {:induction false} BodyCut(s: string, q: nat, t: Tag, st: Style)
    requires Document(t) && st.Valid() && Cut(s, q, Body(t, st))
    ensures Terminated(s) && q < |s| && ParseForm(s, q, FormOf(t.kind)) == Failed
    decreases t, 1
  {
    hide Occurs, PrintAll, ParseList, ParseKey, ParseLeaf, Clean, ParseNext, Close, Content, Documents;
    match t.kind {
      case Dict =>
        Ends(Dict);
        ListCut(s, q, t.kids, st, Dict, "/" + NameOf(Dict), []);
      case Array =>
        Ends(Array);
        ListCut(s, q, t.kids, st, Array, "/" + NameOf(Array), []);
      case Key =>
        KeyCut(s, q, t, st);
      case False =>
      case True =>
      case _ =>
        LeafCut(s, q, t, st);
    }
  }

  lemma {:induction false} KeyCut(s: string, q: nat, t: Tag, st: Style)
    requires Document(t) && t.kind == Key && st.Valid() && Cut(s, q, Body(t, st))
    ensures Terminated(s) && q < |s| && ParseKey(s, q) == Failed
    decreases t, 0
  {
    hide Occurs, PrintAll, Clean, ParseNext, Close, EndTag, Text, Print, NameOf;
    var text := t.value.text;
    CutSplit(s, q, text + Close("key"), PrintAll(t.kids, st));
    if Cut(s, q, text + Close("key")) {
      KeyContentCut(s, q, text);
    } else {
      KeyFound(s, q, text);
      OnlyOne(t.kids, st);
      DocumentCut(s, q + |text + Close("key")|, t.kids[0], st);
    }
  }

  lemma KeyContentCut(s: string, q: nat, text: string)
    requires Clean(text) && Cut(s, q, text + Close("key"))
    ensures EndTag(s, q, "key").NoMark?
  {
    ContentCut(s, q, text, Key);
  }

  lemma LeafCut(s: string, q: nat, t: Tag, st: Style)
    requires st.Valid() && Document(t) && t.kind in {Str, Integer, Data, Date}
    requires Cut(s, q, Content(t, st) + Close(NameOf(t.kind)))
    ensures Terminated(s) && q < |s| && ParseLeaf(s, q, t.kind) == Failed
  {
    hide Document, EndTag, Content, Close, NameOf, Clean;
    LeafContent(t, st);
    assert t.kind == Integer ==> s[q] != '<' by {
      if t.kind == Integer && q < |s| - 1 {
        assert s[q] == s[q..|s| - 1][0] == (Content(t, st) + Close(NameOf(t.kind)))[0] == Content(t, st)[0];
      }
    }
    ContentCut(s, q, Content(t, st), t.kind);
  }

  lemma {:induction false} ListCut(s: string, p: nat, ts: seq<Tag>, st: Style, kind: Kind, last: string,
                                   items: seq<Tag>)
    requires Documents(ts) && st.Valid() && Ignored(last)
    requires Cut(s, p, PrintAll(ts, st) + (st.sep + Open(last)))
    ensures Terminated(s) && p < |s| && ParseList(s, p, kind, items) == Failed
    decreases ts, 0
  {
    hide Occurs, Clean, Print, ParseNext, Open, Flip, Ignored, NextTag;
    var end := st.sep + Open(last);
    if ts == [] {
      assert PrintAll(ts, st) + end == end;
      LastCut(s, p, st.sep, last);
    } else {
      var first, rest := Print(ts[0], st), PrintAll(ts[1..], st) + end;
      assert PrintAll(ts, st) + end == first + rest;
      CutSplit(s, p, first, rest);
      if Cut(s, p, first) {
        DocumentCut(s, p, ts[0], st);
      } else {
        ParsePrinted(s, p, ts[0], st);
        ListCut(s, p + |first|, ts[1..], st, kind, last, [Flip(ts[0])] + items);
      }
    }
  }

  lemma LastCut(s: string, p: nat, sep: string, last: string)
    requires Clean(sep) && Ignored(last) && Cut(s, p, sep + Open(last))
    ensures ParseNext(s, p) == Failed
  {
    hide NextTag;
    TagCut(s, p, sep, last);
  }

  lemma PartCut(s: string, p: nat, part: Part, st: Style)
    requires NoDictionary(part) && st.Valid() && Cut(s, p, PrintPart(part, st))
    ensures ParseNext(s, p) == Failed
  {
    hide Clean, Cut, Ignored, Document, Print, ParseNext, Open;
    match part {
      case Skip(name) => LastCut(s, p, st.sep, name);
      case Item(t) => DocumentCut(s, p, t, st);
    }
  }

  /** A file that ends anywhere before its dictionary does is refused. */
  lemma {:induction false} FileCut(s: string, p: nat, parts: seq<Part>, t: Tag, st: Style)
    requires NoDictionaries(parts) && Document(t) && st.Valid() && Cut(s, p, PrintParts(parts, st) + Print(t, st))
    ensures ParseFile(s, p) == Failed
    decreases parts
  {
    hide Occurs, Clean, NoDictionary, PrintPart, ParseNext, Print, Document;
    if parts == [] {
      assert PrintParts(parts, st) + Print(t, st) == Print(t, st);
      DocumentCut(s, p, t, st);
    } else {
      var first, rest := PrintPart(parts[0], st), PrintParts(parts[1..], st) + Print(t, st);
      assert PrintParts(parts, st) + Print(t, st) == first + rest;
      CutSplit(s, p, first, rest);
      if Cut(s, p, first) {
        PartCut(s, p, parts[0], st);
      } else {
        PartSkipped(s, p, parts[0], st);
        FileCut(s, p + |first|, parts[1..], t, st);
      }
    }
  }
}
