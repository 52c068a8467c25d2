/** The property list parser as the code runs it: in place in its buffer, on the pool of tags.
    Positions in the buffer stand for pointers; a parser returns the position behind what it
    parsed where the code returns the length. */
module PlistParser {
  import opened Plist
  import opened PlistFile
  import opened PlistPool
  import opened PlistTags
  import opened PlistScan

  datatype Reply = Done(next: nat, tag: int) | Error | Panic

  /** A reply says what the parser of texts says, with the tags `hs` in the pool. */
  ghost predicate Agrees(r: Reply, hs: seq<Held>, o: Outcome) {
    match r
    case Done(next, tag) => o == Parsed(next, TagsOf(hs)) && tag == Head(hs)
    case Error => o == Failed && hs == []
    case Panic => o == Panicked && hs == []
  }

  /** What a list parser reads: nothing more for an element written as one tag. */
  ghost function ListOutcome(s: string, p: nat, kind: Kind, empty: bool): Outcome
    requires Terminated(s) && p < |s|
  {
    if empty then Parsed(p, [Tag(kind, Null, [])]) else ParseList(s, p, kind, [])
  }

  lemma OneTag(h: Held, ls: seq<Held>)
    ensures TagsOf([h] + ls) == [TagOf(h)] + TagsOf(ls) && TagsOf([h]) == [TagOf(h)]
    ensures Head([h]) == h.cell
  {
    assert ([h] + ls)[1..] == ls;
  }

  lemma GainedNothing(g: TagPool)
    requires g.Valid()
    ensures Gained(g.cells, g.held, g.cells, g.held, [])
  {
    g.HeldOnce();
  }

  lemma NamesFilled(cells: seq<Cell>, i: nat, c: Cell)
    requires i < |cells| && cells[i].value == Null
    ensures NamesIn(cells[i := c]) == NamesIn(cells) + NameIn(c.value)
  {
    NamesUpdate(cells, i, c);
  }

  /** A new tag above `ls`, its string counted when it has one. */
  method MakeTag(g: TagPool, kind: Kind, value: Value, sub: int, ghost c0: seq<Cell>, ghost h0: multiset<nat>,
                 ghost ls: seq<Held>)
    returns (tag: nat, ghost h: Held)
    requires g.Valid() && Proper(kind, value) && sub == Head(ls) && Gained(c0, h0, g.cells, g.held, ls)
    modifies g, g.interned
    ensures g.Valid() && h == Held(tag, kind, value, ls) && Gained(c0, h0, g.cells, g.held, [h])
  {
    hide NamesIn, Interned, Interning, Linked, All, Gained, Proper;
    ghost var c1, h1 := g.cells, g.held;
    tag := g.NewTag();
    h := Held(tag, kind, value, ls);
    if value.Symbol? {
      g.interned.NewSymbol(value.text);
    }
    ghost var c2 := g.cells;
    Wrapping(c0, h0, c1, h1, ls, c2, tag, kind, value);
    NamesFilled(c2, tag, Cell(kind, value, sub, NIL));
    g.Fill(tag, kind, value, sub, NIL);
  }

  /** Reads one tag with all that belongs to it. A null tag comes back from headers and from
      unknown tags. Whatever is replied, nothing before `p` is written, and unless it is a panic
      the pool has changed by exactly the tags returned. */
  method XMLParseNextTag(g: TagPool, buffer: array<char>, p: nat, ghost s: string)
    returns (r: Reply, ghost hs: seq<Held>)
    requires g.Valid() && Uncut(buffer, p, s)
    modifies g, g.interned, buffer
    ensures g.Valid() && Agrees(r, hs, ParseNext(s, p))
    ensures !r.Panic? ==> Gained(old(g.cells), old(g.held), g.cells, g.held, hs)
    ensures r.Done? ==> Uncut(buffer, r.next, s)
    ensures forall k :: 0 <= k < p ==> buffer[k] == old(buffer[k])
    decreases |s| - p, 0
  {
    hide Gained, NextTag, Name, Classify, TagPool.Valid, Terminated, ParseList, ParseKey, ParseLeaf;
    GainedNothing(g);
    hs := [];
    var m := GetNextTag(buffer, p, s);
    if m == NoMark {
      return Error, [];
    }
    NameSeen(buffer, p, s, m);
    var q := m.end + 1;
    match Classify(CString(buffer[..], m.start + 1)) {
      case Header => r := Done(q, NIL);
      case List(kind, empty) => r, hs := ParseTagList(g, buffer, q, kind, empty, s);
      case Pair => r, hs := ParseTagKey(g, buffer, q, s);
      case Leaf(kind) => r, hs := ParseTagLeaf(g, buffer, q, kind, s);
      case Bare(kind) => r, hs := ParseTagBoolean(g, q, kind);
      case Unknown => r := Done(q, NIL);
    }
  }

  /** The tags of a dictionary or array, each put in front of those before it. On an error
      inside, all of them are freed again. */
  method ParseTagList(g: TagPool, buffer: array<char>, p: nat, kind: Kind, empty: bool, ghost s: string)
    returns (r: Reply, ghost hs: seq<Held>)
    requires g.Valid() && Uncut(buffer, p, s)
    modifies g, g.interned, buffer
    ensures g.Valid() && Agrees(r, hs, ListOutcome(s, p, kind, empty))
    ensures !r.Panic? ==> Gained(old(g.cells), old(g.held), g.cells, g.held, hs)
    ensures r.Done? ==> Uncut(buffer, r.next, s)
    ensures forall k :: 0 <= k < p ==> buffer[k] == old(buffer[k])
    decreases |s| - p, 1
  {
    hide Gained, TagPool.Valid, Terminated, ParseNext, Linked, Interned, NamesIn, All;
    ghost var c0, h0 := g.cells, g.held;
    GainedNothing(g);
    var tagList, pos := NIL, p;
    ghost var ls: seq<Held> := [];
    while !empty
      invariant g.Valid() && p <= pos < |s| && Uncut(buffer, pos, s)
      invariant ListOutcome(s, p, kind, empty) ==
                if empty then Parsed(p, [Tag(kind, Null, [])]) else ParseList(s, pos, kind, TagsOf(ls))
      invariant tagList == Head(ls) && Gained(c0, h0, g.cells, g.held, ls)
      invariant empty ==> pos == p && ls == []
      invariant forall k :: 0 <= k < p ==> buffer[k] == old(buffer[k])
      decreases |s| - pos
    {
      ghost var c1, h1 := g.cells, g.held;
      var tmp, ts := XMLParseNextTag(g, buffer, pos, s);
      if tmp == Panic {
        return Panic, [];
      }
      if tmp == Error {
        GainedStill(c0, h0, c1, h1, ls, g.cells, g.held);
        FreeList(g, tagList, c0, h0, ls);
        return Error, [];
      }
      pos := tmp.next;
      if tmp.tag == NIL {
        GainedStill(c0, h0, c1, h1, ls, g.cells, g.held);
        break;
      }
      assert ts == [ts[0]];
      PutInFront(g, tmp.tag, tagList, c0, h0, c1, h1, ls, ts[0]);
      OneTag(ts[0], ls);
      tagList := tmp.tag;
      ls := [ts[0]] + ls;
    }
    var tag, h := MakeTag(g, kind, Null, tagList, c0, h0, ls);
    OneTag(h, []);
    r, hs := Done(pos, tag), [h];
  }

  /** The key's string, and the one tag that follows it. */
  method ParseTagKey(g: TagPool, buffer: array<char>, p: nat, ghost s: string) returns (r: Reply, ghost hs: seq<Held>)
    requires g.Valid() && Uncut(buffer, p, s)
    modifies g, g.interned, buffer
    ensures g.Valid() && Agrees(r, hs, ParseKey(s, p))
    ensures !r.Panic? ==> Gained(old(g.cells), old(g.held), g.cells, g.held, hs)
    ensures r.Done? ==> Uncut(buffer, r.next, s)
    ensures forall k :: 0 <= k < p ==> buffer[k] == old(buffer[k])
    decreases |s| - p, 1
  {
    hide Gained, TagPool.Valid, Terminated, ParseNext, EndTag, Text, CString, Holds;
    ghost var c0, h0 := g.cells, g.held;
    var next := FixDataMatchingTag(buffer, p, "key", s);
    if next == -1 {
      GainedNothing(g);
      return Error, [];
    }
    ghost var text, cut := Text(s, p, "key"), buffer[..];
    var sub, ts := XMLParseNextTag(g, buffer, next, s);
    if sub == Panic {
      return Panic, [];
    }
    if sub == Error {
      return Error, [];
    }
    TextKept(buffer, p, text, cut, next, s, sub.next);
    var tag, h := MakeTag(g, Key, Value.Symbol(CString(buffer[..], p)), sub.tag, c0, h0, ts);
    OneTag(h, []);
    r, hs := Done(sub.next, tag), [h];
  }

  /** String, integer, data and date tags: only the first two keep their text. */
  method ParseTagLeaf(g: TagPool, buffer: array<char>, p: nat, kind: Kind, ghost s: string)
    returns (r: Reply, ghost hs: seq<Held>)
    requires g.Valid() && Uncut(buffer, p, s)
    modifies g, g.interned, buffer
    ensures g.Valid() && Agrees(r, hs, ParseLeaf(s, p, kind))
    ensures !r.Panic? ==> Gained(old(g.cells), old(g.held), g.cells, g.held, hs)
    ensures r.Done? ==> Uncut(buffer, r.next, s)
    ensures forall k :: 0 <= k < p ==> buffer[k] == old(buffer[k])
  {
    hide Gained, TagPool.Valid, Terminated, EndTag, Text, CString, Holds, NameOf;
    GainedNothing(g);
    if kind == Integer && buffer[p] == '<' {
      return Panic, [];
    }
    var next := FixDataMatchingTag(buffer, p, NameOf(kind), s);
    if next == -1 {
      return Error, [];
    }
    TextKept(buffer, p, Text(s, p, NameOf(kind)), buffer[..], next, s, next);
    var tag, h := MakeTag(g, kind, LeafValue(kind, CString(buffer[..], p)), NIL, g.cells, g.held, []);
    OneTag(h, []);
    r, hs := Done(next, tag), [h];
  }

  method ParseTagBoolean(g: TagPool, p: nat, kind: Kind) returns (r: Reply, ghost hs: seq<Held>)
    requires g.Valid()
    modifies g, g.interned
    ensures g.Valid() && Agrees(r, hs, Parsed(p, [Tag(kind, Null, [])]))
    ensures Gained(old(g.cells), old(g.held), g.cells, g.held, hs)
  {
    hide Gained, TagPool.Valid;
    GainedNothing(g);
    var tag, h := MakeTag(g, kind, Null, NIL, g.cells, g.held, []);
    OneTag(h, []);
    r, hs := Done(p, tag), [h];
  }

  /** Links a tag just read to the list of those before it. */
  method PutInFront(g: TagPool, tag: nat, tagList: int, ghost c0: seq<Cell>, ghost h0: multiset<nat>,
                    ghost c1: seq<Cell>, ghost h1: multiset<nat>, ghost ls: seq<Held>, ghost t: Held)
    requires g.Valid() && tag == t.cell && tagList == Head(ls)
    requires Gained(c0, h0, c1, h1, ls) && Gained(c1, h1, g.cells, g.held, [t])
    modifies g
    ensures g.Valid() && Gained(c0, h0, g.cells, g.held, [t] + ls)
  {
    hide Linked, Interned, NamesIn, All, Stored, Gained;
    g.HeldOnce();
    Linking(c0, h0, c1, h1, ls, g.cells, g.held, t);
    assert tag in g.held by { InGained(c1, h1, g.cells, g.held, t); }
    NamesUpdate(g.cells, tag, g.cells[tag].(tagNext := tagList));
    SameNames(NamesIn(g.cells), NameIn(g.cells[tag].value));
    g.Fill(tag, g.cells[tag].kind, g.cells[tag].value, g.cells[tag].tag, tagList);
  }

  lemma InGained(c1: seq<Cell>, h1: multiset<nat>, c2: seq<Cell>, h2: multiset<nat>, t: Held)
    requires Gained(c1, h1, c2, h2, [t])
    ensures t.cell in h2
  {
    Alone(c2, t);
  }

  lemma SameNames(n: multiset<string>, x: multiset<string>)
    requires x <= n
    ensures n - x + x == n
  {
  }

  /** The first dictionary of a file; every other tag is freed again, and when there is no
      dictionary nothing is left of the parse. */
  method XMLParseFile(g: TagPool, buffer: array<char>, ghost s: string) returns (r: Reply, ghost hs: seq<Held>)
    requires g.Valid() && Uncut(buffer, 0, s)
    modifies g, g.interned, buffer
    ensures g.Valid() && Agrees(r, hs, ParseFile(s, 0))
    ensures !r.Panic? ==> Gained(old(g.cells), old(g.held), g.cells, g.held, hs)
  {
    hide Gained, TagPool.Valid, Terminated, ParseNext, Linked, Interned, NamesIn, All, Stored;
    ghost var c0, h0 := g.cells, g.held;
    GainedNothing(g);
    var pos := 0;
    while true
      invariant g.Valid() && pos < |s| && Uncut(buffer, pos, s)
      invariant ParseFile(s, 0) == ParseFile(s, pos)
      invariant Gained(c0, h0, g.cells, g.held, [])
      decreases |s| - pos
    {
      ghost var c1, h1 := g.cells, g.held;
      r, hs := XMLParseNextTag(g, buffer, pos, s);
      if r == Panic {
        return;
      }
      if r == Error {
        GainedStill(c0, h0, c1, h1, [], g.cells, g.held);
        return;
      }
      pos := r.next;
      GainedAfterNothing(c0, h0, c1, h1, g.cells, g.held, hs);
      if r.tag == NIL {
        continue;
      }
      assert hs == [hs[0]];
      KindStored(c0, h0, g.cells, g.held, hs[0]);
      if g.cells[r.tag].kind == Dict {
        return;
      }
      FreeList(g, r.tag, c0, h0, hs);
    }
  }

  lemma GainedAfterNothing(c0: seq<Cell>, h0: multiset<nat>, c1: seq<Cell>, h1: multiset<nat>, c2: seq<Cell>,
                           h2: multiset<nat>, hs: seq<Held>)
    requires Gained(c0, h0, c1, h1, []) && Gained(c1, h1, c2, h2, hs)
    ensures Gained(c0, h0, c2, h2, hs)
  {
  }

  lemma KindStored(c0: seq<Cell>, h0: multiset<nat>, c1: seq<Cell>, h1: multiset<nat>, h: Held)
    requires Gained(c0, h0, c1, h1, [h])
    ensures h.cell < |c1| && c1[h.cell].kind == h.kind
    ensures TagsOf([h]) == [TagOf(h)]
  {
    OneTag(h, []);
  }

  /** A printed document parsed in its buffer: exactly its characters are taken, and the pool
      gains the document with every list turned round. */
  method ParsePrintedDocument(g: TagPool, buffer: array<char>, ghost t: Tag, ghost st: Style, ghost after: string)
    returns (next: nat, tag: nat, ghost h: Held)
    requires g.Valid() && Document(t) && st.Valid() && Terminated(after) && buffer[..] == Print(t, st) + after
    modifies g, g.interned, buffer
    ensures g.Valid() && next == |Print(t, st)| && tag == h.cell && TagOf(h) == Flip(t)
    ensures Gained(old(g.cells), old(g.held), g.cells, g.held, [h])
  {
    hide Gained, TagPool.Valid, Document, Print, ParseNext, Flip;
    ghost var s := Print(t, st) + after;
    RoundTrip(t, st, after);
    assert Uncut(buffer, 0, s) by {
      assert forall k :: 0 <= k < |s| ==> buffer[k] == buffer[..][k];
    }
    var r; ghost var hs;
    r, hs := XMLParseNextTag(g, buffer, 0, s);
    assert hs == [hs[0]];
    OneTag(hs[0], []);
    next, tag, h := r.next, r.tag, hs[0];
  }

  /** A printed file: headers, unknown tags and documents that are no dictionaries, then at
      most one dictionary. The parser answers with the dictionary turned round and is at its
      end; everything passed over has been freed. Without a dictionary it fails. */
  method ParsePrintedFile(g: TagPool, buffer: array<char>, ghost parts: seq<Part>, ghost dict: seq<Tag>,
                          ghost st: Style, ghost after: string)
    returns (r: Reply, ghost hs: seq<Held>)
    requires g.Valid() && NoDictionaries(parts) && st.Valid()
    requires |dict| <= 1 && Documents(dict) && (if dict == [] then Tagless(after) else Terminated(after))
    requires forall t :: t in dict ==> t.kind == Dict
    requires buffer[..] == PrintParts(parts, st) + PrintAll(dict, st) + after
    modifies g, g.interned, buffer
    ensures g.Valid() && Gained(old(g.cells), old(g.held), g.cells, g.held, hs)
    ensures dict == [] ==> r == Error && hs == []
    ensures dict != [] ==> |hs| == 1 && r == Done(|PrintParts(parts, st) + PrintAll(dict, st)|, hs[0].cell)
    ensures dict != [] ==> TagOf(hs[0]) == Flip(dict[0])
  {
    hide Gained, TagPool.Valid, Document, Print, PrintParts, NoDictionaries, ParseFile, Flip, Tagless;
    ghost var s := buffer[..];
    if dict == [] {
      assert PrintParts(parts, st) + PrintAll(dict, st) == PrintParts(parts, st);
      NothingToGive(parts, st, after);
    } else {
      OnlyOne(dict, st);
      FirstDictionary(parts, dict[0], st, after);
    }
    assert Uncut(buffer, 0, s);
    r, hs := XMLParseFile(g, buffer, s);
    if hs != [] {
      assert hs == [hs[0]];
      OneTag(hs[0], []);
    }
  }

  // ----- Looking up a property

  /** The tags below the first key `key` of a stored list. */
  ghost function Found(hs: seq<Held>, key: string): seq<Held> {
    if hs == [] then []
    else if hs[0].kind == Key && hs[0].value == Value.Symbol(key) then hs[0].kids
    else Found(hs[1..], key)
  }

  lemma {:induction false} FoundIsLookup(hs: seq<Held>, key: string)
    ensures TagsOf(Found(hs, key)) == Lookup(TagsOf(hs), key)
  {
    if hs != [] {
      FoundIsLookup(hs[1..], key);
      assert TagsOf(hs)[1..] == TagsOf(hs[1..]);
    }
  }

  /** The tag below the first key `key` of a dictionary, or a null tag. */
  method XMLGetProperty(g: TagPool, dict: nat, key: string, ghost h: Held) returns (tag: int)
    requires Stored(g.cells, [h]) && dict == h.cell
    ensures h.kind != Dict ==> tag == NIL
    ensures h.kind == Dict ==> tag == Head(Found(h.kids, key))
    ensures h.kind == Dict ==> TagsOf(Found(h.kids, key)) == Lookup(TagsOf(h.kids), key)
  {
    if g.cells[dict].kind != Dict {
      return NIL;
    }
    FoundIsLookup(h.kids, key);
    var tagList := g.cells[dict].tag;
    ghost var hs := h.kids;
    while tagList != NIL
      invariant Stored(g.cells, hs) && tagList == Head(hs) && Found(h.kids, key) == Found(hs, key)
      decreases Size(hs)
    {
      var cell := g.cells[tagList];
      hs := hs[1..];
      tagList := cell.tagNext;
      if cell.kind != Key || cell.value == Null {
        continue;
      }
      if cell.value.text == key {
        return cell.tag;
      }
    }
    return NIL;
  }

  /** Frees everything gained since `c0`: nothing remains of it. */
  method FreeList(g: TagPool, tagList: int, ghost c0: seq<Cell>, ghost h0: multiset<nat>, ghost ls: seq<Held>)
    requires g.Valid() && tagList == Head(ls) && Gained(c0, h0, g.cells, g.held, ls)
    modifies g, g.interned
    ensures g.Valid() && Gained(c0, h0, g.cells, g.held, [])
  {
    hide Linked, Interned, NamesIn, All, Stored;
    ghost var c1, h1, n1 := g.cells, g.held, NamesIn(g.cells);
    g.XMLFreeTag(tagList, ls);
    g.ValidAfterRelease(c1, h1, n1, ls);
    Undone(c0, h0, c1, h1, ls, g.cells, g.held);
  }

  /** A C string before the place where parsing went on is still there afterwards. */
  lemma TextKept(buffer: array<char>, p: nat, text: string, before: string, next: nat, s: string, q: nat)
    requires |before| == buffer.Length && Holds(before, p, text) && p + |text| < next <= q && Uncut(buffer, q, s)
    requires forall k :: 0 <= k < next ==> buffer[k] == before[k]
    ensures Terminated(buffer[..]) && CString(buffer[..], p) == text
  {
    assert buffer[..][p..p + |text|] == text;
    CStringIs(buffer[..], p, text);
  }
}
