/** Storage of the property list parser: a pool of tags with a free list through it, and a
    list of interned, counted strings. */
module PlistPool {
  import opened Plist

  const TAGS_PER_BLOCK: nat := 0x1000
  const NIL: int := -1

  /** A tag in the pool. Both links are pool indices or NIL. */
  datatype Cell = Cell(kind: Kind, value: Value, tag: int, tagNext: int)

  // ----- Trees in the pool

  /** A tag together with the cell that holds it. */
  datatype Held = Held(cell: nat, kind: Kind, value: Value, kids: seq<Held>)

  /** Integers stand in the place of a string, and only in integer tags. */
  predicate Proper(kind: Kind, value: Value) {
    value != Null ==> (kind == Integer <==> value.Number?)
  }

  function Head(hs: seq<Held>): int {
    if hs == [] then NIL else hs[0].cell
  }

  /** The tag lists that start at the heads of `hs` spell exactly `hs`. */
  predicate Stored(cells: seq<Cell>, hs: seq<Held>)
    decreases hs
  {
    hs == [] ||
    (hs[0].cell < |cells| && Proper(hs[0].kind, hs[0].value) &&
     cells[hs[0].cell] == Cell(hs[0].kind, hs[0].value, Head(hs[0].kids), Head(hs[1..])) &&
     Stored(cells, hs[0].kids) && Stored(cells, hs[1..]))
  }

  ghost function CellsOf(hs: seq<Held>): multiset<nat>
    decreases hs
  {
    if hs == [] then multiset{} else multiset{hs[0].cell} + CellsOf(hs[0].kids) + CellsOf(hs[1..])
  }

  function Size(hs: seq<Held>): nat
    decreases hs
  {
    if hs == [] then 0 else 1 + Size(hs[0].kids) + Size(hs[1..])
  }

  function TagOf(h: Held): Tag
    decreases h, 1
  {
    Tag(h.kind, h.value, TagsOf(h.kids))
  }

  function TagsOf(hs: seq<Held>): (ts: seq<Tag>)
    ensures |ts| == |hs|
    decreases hs, 0
  {
    if hs == [] then [] else [TagOf(hs[0])] + TagsOf(hs[1..])
  }

  /** Only the cells of a tree matter to it. */
  lemma {:induction false} StoredFrame(cells: seq<Cell>, after: seq<Cell>, hs: seq<Held>)
    requires Stored(cells, hs) && |cells| <= |after|
    requires forall i :: i in CellsOf(hs) ==> i < |cells| && after[i] == cells[i]
    ensures Stored(after, hs)
    decreases hs
  {
    if hs != [] {
      assert CellsOf(hs[0].kids) <= CellsOf(hs) && CellsOf(hs[1..]) <= CellsOf(hs);
      StoredFrame(cells, after, hs[0].kids);
      StoredFrame(cells, after, hs[1..]);
    }
  }

  // ----- The pool and its free list

  ghost function All(n: nat): (m: multiset<nat>)
    ensures |m| == n && forall i: nat :: m[i] == if i < n then 1 else 0
  {
    if n == 0 then multiset{} else All(n - 1) + multiset{n - 1}
  }

  /** A cleared tag with the link to the next. */
  function FreeCell(next: int): Cell {
    Cell(None, Null, NIL, next)
  }

  /** Where the free list goes on after its `k`th tag. */
  function After(free: seq<nat>, k: nat): int {
    if k + 1 < |free| then free[k + 1] else NIL
  }

  /** The cells on the free list `free`, head first, are cleared and linked in that order. */
  ghost predicate Linked(cells: seq<Cell>, free: seq<nat>) {
    forall k :: 0 <= k < |free| ==>
      free[k] < |cells| && cells[free[k]] == FreeCell(After(free, k))
  }

  // ----- Interned strings

  datatype Entry = Entry(text: string, refCount: nat)

  ghost predicate Interning(ss: seq<Entry>) {
    (forall i :: 0 <= i < |ss| ==> ss[i].refCount > 0) &&
    (forall i, j :: 0 <= i < j < |ss| ==> ss[i].text != ss[j].text)
  }

  ghost function Times(text: string, n: nat): multiset<string> {
    multiset{}[text := n]
  }

  /** Every string as often as it is counted. */
  ghost function Interned(ss: seq<Entry>): multiset<string> {
    if ss == [] then multiset{} else Times(ss[0].text, ss[0].refCount) + Interned(ss[1..])
  }

  lemma {:induction false} InternedConcat(a: seq<Entry>, b: seq<Entry>)
    ensures Interned(a + b) == Interned(a) + Interned(b)
  {
    if a == [] {
      assert a + b == b;
    } else {
      assert (a + b)[1..] == a[1..] + b;
      InternedConcat(a[1..], b);
    }
  }

  lemma {:induction false} InternedAbsent(ss: seq<Entry>, text: string)
    requires forall i :: 0 <= i < |ss| ==> ss[i].text != text
    ensures Interned(ss)[text] == 0
  {
    if ss != [] {
      InternedAbsent(ss[1..], text);
    }
  }

  lemma InternedFirst(e: Entry, ss: seq<Entry>)
    ensures Interned([e] + ss) == Times(e.text, e.refCount) + Interned(ss)
  {
    hide Times;
    assert ([e] + ss)[1..] == ss;
  }

  lemma InternedSplit(ss: seq<Entry>, i: nat)
    requires i < |ss|
    ensures Interned(ss) == Interned(ss[..i]) + Times(ss[i].text, ss[i].refCount) + Interned(ss[i + 1..])
  {
    hide Times, Interned;
    assert ss == ss[..i] + ([ss[i]] + ss[i + 1..]);
    InternedConcat(ss[..i], [ss[i]] + ss[i + 1..]);
    InternedFirst(ss[i], ss[i + 1..]);
  }

  /** A string's count is its multiplicity. */
  lemma CountIsMultiplicity(ss: seq<Entry>, i: nat)
    requires Interning(ss) && i < |ss|
    ensures Interned(ss)[ss[i].text] == ss[i].refCount
  {
    InternedSplit(ss, i);
    InternedAbsent(ss[..i], ss[i].text);
    InternedAbsent(ss[i + 1..], ss[i].text);
  }

  // ----- The strings that the pool's tags name

  ghost function NameIn(v: Value): multiset<string> {
    if v.Symbol? then multiset{v.text} else multiset{}
  }

  ghost function NamesIn(cells: seq<Cell>): multiset<string> {
    if cells == [] then multiset{} else NameIn(cells[0].value) + NamesIn(cells[1..])
  }

  ghost function NamesOf(hs: seq<Held>): multiset<string>
    decreases hs
  {
    if hs == [] then multiset{} else NameIn(hs[0].value) + NamesOf(hs[0].kids) + NamesOf(hs[1..])
  }

  lemma {:induction false} NamesConcat(a: seq<Cell>, b: seq<Cell>)
    ensures NamesIn(a + b) == NamesIn(a) + NamesIn(b)
  {
    if a == [] {
      assert a + b == b;
    } else {
      assert (a + b)[1..] == a[1..] + b;
      NamesConcat(a[1..], b);
    }
  }

  lemma {:induction false} NamesOfClear(cells: seq<Cell>)
    requires forall k :: 0 <= k < |cells| ==> cells[k].value == Null
    ensures NamesIn(cells) == multiset{}
  {
    if cells != [] {
      NamesOfClear(cells[1..]);
    }
  }

  lemma NamesUpdate(cells: seq<Cell>, i: nat, c: Cell)
    requires i < |cells|
    ensures NamesIn(cells[i := c]) == NamesIn(cells) - NameIn(cells[i].value) + NameIn(c.value)
    ensures NameIn(cells[i].value) <= NamesIn(cells)
  {
    var front, back := cells[..i], cells[i + 1..];
    assert cells == front + ([cells[i]] + back) && cells[i := c] == front + ([c] + back);
    NamesConcat(front, [cells[i]] + back);
    NamesConcat(front, [c] + back);
    assert ([cells[i]] + back)[1..] == back && ([c] + back)[1..] == back;
  }

  // ----- Changes of the pool

  /** The cells `h` are the same before and after. */
  ghost predicate Same(c0: seq<Cell>, c1: seq<Cell>, h: multiset<nat>) {
    forall i :: i in h ==> i < |c0| && i < |c1| && c1[i] == c0[i]
  }

  /** From cells `c0` with `h0` in use to `c1` with `h1`, the tags `hs` were added, and nothing
      else that is in use changed. */
  ghost predicate Gained(c0: seq<Cell>, h0: multiset<nat>, c1: seq<Cell>, h1: multiset<nat>, hs: seq<Held>) {
    |c0| <= |c1| && h1 == h0 + CellsOf(hs) && Stored(c1, hs) && NamesIn(c1) == NamesIn(c0) + NamesOf(hs) &&
    Same(c0, c1, h0)
  }

  /** The tags `hs` were taken away, and nothing else that is in use changed. */
  ghost predicate Released(c0: seq<Cell>, h0: multiset<nat>, c1: seq<Cell>, h1: multiset<nat>, hs: seq<Held>) {
    |c0| == |c1| && h1 == h0 - CellsOf(hs) && NamesIn(c1) == NamesIn(c0) - NamesOf(hs) &&
    Same(c0, c1, h1)
  }

  /** No cell is in use twice. */
  ghost predicate Once(h: multiset<nat>) {
    forall i :: i in h ==> h[i] == 1
  }

  lemma {:induction false} StoredInside(cells: seq<Cell>, hs: seq<Held>)
    requires Stored(cells, hs)
    ensures forall i :: i in CellsOf(hs) ==> i < |cells|
    decreases hs
  {
    if hs != [] {
      StoredInside(cells, hs[0].kids);
      StoredInside(cells, hs[1..]);
    }
  }

  lemma Fronted(cells: seq<Cell>, t: Held, ls: seq<Held>)
    ensures CellsOf([t] + ls) == multiset{t.cell} + CellsOf(t.kids) + CellsOf(ls)
    ensures NamesOf([t] + ls) == NameIn(t.value) + NamesOf(t.kids) + NamesOf(ls)
    ensures Stored(cells, [t] + ls) <==>
            t.cell < |cells| && Proper(t.kind, t.value) &&
            cells[t.cell] == Cell(t.kind, t.value, Head(t.kids), Head(ls)) && Stored(cells, t.kids) && Stored(cells, ls)
  {
    assert ([t] + ls)[1..] == ls;
  }

  lemma OnceApart(h: multiset<nat>, a: multiset<nat>, b: multiset<nat>, i: nat, c: multiset<nat>)
    requires Once(h) && h == a + b + (multiset{i} + c)
    ensures i !in a && i !in b && i !in c
  {
    assert h[i] == a[i] + b[i] + 1 + c[i];
  }

  /** A tree survives changing a cell outside it. */
  lemma StoredAround(cells: seq<Cell>, after: seq<Cell>, hs: seq<Held>, h: multiset<nat>, i: nat, c: Cell)
    requires Stored(cells, hs) && CellsOf(hs) <= h && i !in CellsOf(hs) && i < |after| && |cells| <= |after|
    requires Same(cells, after, h)
    ensures Stored(after[i := c], hs)
  {
    StoredInside(cells, hs);
    assert forall j :: j in CellsOf(hs) ==> j in h;
    StoredFrame(cells, after[i := c], hs);
  }

  lemma SameTrans(c0: seq<Cell>, c1: seq<Cell>, c2: seq<Cell>, a: multiset<nat>, b: multiset<nat>, h: multiset<nat>,
                  i: nat, c: Cell)
    requires Same(c0, c1, a) && Same(c1, c2, b) && h <= a && h <= b && i !in h && i < |c2|
    ensures Same(c0, c2[i := c], h)
  {
  }

  /** Putting a newly read tag in front of a list of tags. */
  lemma Linking(c0: seq<Cell>, h0: multiset<nat>, c1: seq<Cell>, h1: multiset<nat>, ls: seq<Held>,
                c2: seq<Cell>, h2: multiset<nat>, t: Held)
    requires Gained(c0, h0, c1, h1, ls) && Gained(c1, h1, c2, h2, [t]) && Once(h2)
    ensures t.cell < |c2| && Gained(c0, h0, c2[t.cell := c2[t.cell].(tagNext := Head(ls))], h2, [t] + ls)
  {
    hide CellsOf, NamesOf, NamesIn, Stored, Once, NameIn;
    var i := t.cell;
    var c := Cell(t.kind, t.value, Head(t.kids), Head(ls));
    Alone(c2, t);
    Fronted(c2[i := c], t, ls);
    assert c2[i].(tagNext := Head(ls)) == c;
    OnceApart(h2, h0, CellsOf(ls), i, CellsOf(t.kids));
    StoredAround(c1, c2, ls, h1, i, c);
    forall j | j in CellsOf(t.kids)
      ensures j < |c2|
    {
      StoredInside(c2, t.kids);
    }
    StoredAround(c2, c2, t.kids, CellsOf(t.kids), i, c);
    NamesUpdate(c2, i, c);
  }

  lemma Alone(cells: seq<Cell>, t: Held)
    ensures CellsOf([t]) == multiset{t.cell} + CellsOf(t.kids) && NamesOf([t]) == NameIn(t.value) + NamesOf(t.kids)
    ensures Stored(cells, [t]) <==>
            t.cell < |cells| && Proper(t.kind, t.value) &&
            cells[t.cell] == Cell(t.kind, t.value, Head(t.kids), NIL) && Stored(cells, t.kids)
  {
    Fronted(cells, t, []);
    assert [t] + [] == [t];
  }

  /** Filling in a new tag above a list of tags. */
  lemma Wrapping(c0: seq<Cell>, h0: multiset<nat>, c1: seq<Cell>, h1: multiset<nat>, ls: seq<Held>,
                 c2: seq<Cell>, i: nat, kind: Kind, value: Value)
    requires Gained(c0, h0, c1, h1, ls) && |c1| <= |c2| && i < |c2| && c2[i].value == Null && NamesIn(c2) == NamesIn(c1)
    requires Proper(kind, value) && i !in h1
    requires Same(c1, c2, h1)
    ensures Gained(c0, h0, c2[i := Cell(kind, value, Head(ls), NIL)], h1 + multiset{i}, [Held(i, kind, value, ls)])
  {
    hide CellsOf, NamesOf, NamesIn, Stored, NameIn, Same;
    var t := Held(i, kind, value, ls);
    var c := Cell(kind, value, Head(ls), NIL);
    Alone(c2[i := c], t);
    StoredAround(c1, c2, ls, h1, i, c);
    SameTrans(c0, c1, c2, h0, h1, h0, i, c);
    NamesUpdate(c2, i, c);
    NoName();
  }

  lemma OnceSplit(h: multiset<nat>, i: nat, a: multiset<nat>, b: multiset<nat>)
    requires Once(h) && h == multiset{i} + a + b
    ensures i !in a && i !in b && Once(a) && Once(b)
    ensures forall j :: j in b ==> j !in a
  {
    assert forall j :: h[j] == multiset{i}[j] + a[j] + b[j];
  }

  /** Taking away in three steps and at once. */
  lemma Subtract<T>(h: multiset<T>, x: multiset<T>, a: multiset<T>, b: multiset<T>)
    ensures h - a - b - x == h - (x + a + b)
    ensures x + a + b <= h ==> x <= h - a - b && b <= h - a
  {
  }

  /** Only cells of `h` differ. */
  ghost predicate Untouched(c0: seq<Cell>, c1: seq<Cell>, h: multiset<nat>) {
    |c1| == |c0| && forall i: nat :: i < |c0| && i !in h ==> c1[i] == c0[i]
  }

  lemma UntouchedTrans(c0: seq<Cell>, c1: seq<Cell>, c2: seq<Cell>, a: multiset<nat>, b: multiset<nat>, i: nat, c: Cell)
    requires Untouched(c0, c1, a) && Untouched(c1, c2, b) && i < |c0|
    ensures |c2| == |c0| && Untouched(c0, c2[i := c], multiset{i} + a + b)
    ensures i !in a && i !in b ==> c2[i] == c0[i]
  {
  }

  /** Clearing the tags of a tree takes exactly their names away. */
  lemma {:induction false} Cleared(cells: seq<Cell>, hs: seq<Held>) returns (after: seq<Cell>)
    requires Stored(cells, hs) && Once(CellsOf(hs))
    ensures Untouched(cells, after, CellsOf(hs))
    ensures NamesOf(hs) <= NamesIn(cells) && NamesIn(after) == NamesIn(cells) - NamesOf(hs)
    decreases Size(hs)
  {
    if hs == [] {
      after := cells;
    } else {
      hide NamesIn, NamesOf, NameIn, CellsOf, Once, Stored, Untouched;
      var i, kids, rest := hs[0].cell, hs[0].kids, hs[1..];
      assert [hs[0]] + rest == hs;
      Fronted(cells, hs[0], rest);
      OnceSplit(CellsOf(hs), i, CellsOf(kids), CellsOf(rest));
      var c1 := Cleared(cells, kids);
      StoredBeside(cells, c1, rest, CellsOf(kids));
      var c2 := Cleared(c1, rest);
      UntouchedTrans(cells, c1, c2, CellsOf(kids), CellsOf(rest), i, FreeCell(NIL));
      after := c2[i := FreeCell(NIL)];
      ClearedNames(cells, c2, i, hs[0].value, NamesOf(kids), NamesOf(rest));
    }
  }

  lemma StoredBeside(cells: seq<Cell>, after: seq<Cell>, hs: seq<Held>, others: multiset<nat>)
    requires Stored(cells, hs) && Untouched(cells, after, others)
    requires forall j :: j in CellsOf(hs) ==> j !in others
    ensures |after| == |cells| && Stored(after, hs)
  {
    StoredInside(cells, hs);
    StoredFrame(cells, after, hs);
  }

  lemma ClearedNames(c0: seq<Cell>, c2: seq<Cell>, i: nat, value: Value, a: multiset<string>, b: multiset<string>)
    requires i < |c2| && c2[i].value == value
    requires a <= NamesIn(c0) && b <= NamesIn(c0) - a && NamesIn(c2) == NamesIn(c0) - a - b
    ensures NameIn(value) + a + b <= NamesIn(c0)
    ensures NamesIn(c2[i := FreeCell(NIL)]) == NamesIn(c0) - (NameIn(value) + a + b)
  {
    hide NamesIn, NameIn;
    NamesUpdate(c2, i, FreeCell(NIL));
    NoName();
    NamesTakenAway(NamesIn(c0), NameIn(value), a, b);
  }

  lemma NamesTakenAway(n: multiset<string>, x: multiset<string>, a: multiset<string>, b: multiset<string>)
    requires a <= n && b <= n - a && x <= n - a - b
    ensures x + a + b <= n && n - a - b - x + multiset{} == n - (x + a + b)
  {
  }

  lemma NoName()
    ensures NameIn(Null) == multiset{}
  {
  }

  /** A tree in use names no more strings than the pool does. */
  lemma NamesInside(cells: seq<Cell>, hs: seq<Held>, h: multiset<nat>)
    requires Stored(cells, hs) && Once(h) && CellsOf(hs) <= h
    ensures NamesOf(hs) <= NamesIn(cells)
  {
    assert forall i :: i in CellsOf(hs) ==> CellsOf(hs)[i] <= h[i];
    var _ := Cleared(cells, hs);
  }

  /** Freeing what is below a tag leaves the tag and its successors alone. */
  lemma PartsApart(c0: seq<Cell>, h0: multiset<nat>, c1: seq<Cell>, h1: multiset<nat>, hs: seq<Held>)
    requires hs != [] && Stored(c0, hs) && CellsOf(hs) <= h0 && Released(c0, h0, c1, h1, hs[0].kids)
    ensures hs[0].cell in h1 && hs[0].cell < |c0| == |c1| && c1[hs[0].cell] == c0[hs[0].cell]
    ensures Stored(c1, hs[1..]) && CellsOf(hs[1..]) <= h1
  {
    hide NamesIn, NamesOf, NameIn, CellsOf, Stored;
    var i, kids, rest := hs[0].cell, hs[0].kids, hs[1..];
    assert [hs[0]] + rest == hs;
    Fronted(c0, hs[0], rest);
    Subtract(h0, multiset{i}, CellsOf(kids), CellsOf(rest));
    assert i in h1 by {
      assert multiset{i} <= h0 - CellsOf(kids) - CellsOf(rest);
      assert i in h0 - CellsOf(kids) - CellsOf(rest);
    }
    assert forall j :: j in CellsOf(rest) ==> j in h1;
    StoredInside(c0, rest);
    StoredFrame(c0, c1, rest);
  }

  lemma FreeingHeld(h: multiset<nat>, i: nat, a: multiset<nat>, b: multiset<nat>)
    requires multiset{i} + a + b <= h && Once(h)
    ensures h - a - b - multiset{i} == h - (multiset{i} + a + b)
    ensures i in h - a - b && i !in h - a - b - multiset{i}
  {
    assert (h - a - b - multiset{i})[i] == 0;
  }

  /** Freeing a tag: what is below it, what follows it, and then the tag itself. */
  lemma Freeing(c0: seq<Cell>, h0: multiset<nat>, c1: seq<Cell>, h1: multiset<nat>, c2: seq<Cell>, h2: multiset<nat>,
                hs: seq<Held>, link: int)
    requires hs != [] && Stored(c0, hs) && CellsOf(hs) <= h0 && Once(h0)
    requires Released(c0, h0, c1, h1, hs[0].kids) && Released(c1, h1, c2, h2, hs[1..])
    ensures var i := hs[0].cell;
            i in h2 && i < |c2| && Released(c0, h0, c2[i := FreeCell(link)], h2 - multiset{i}, hs)
  {
    hide CellsOf, NamesOf, NamesIn, Stored, NameIn, Once, Same;
    var i, kids, rest := hs[0].cell, hs[0].kids, hs[1..];
    assert [hs[0]] + rest == hs;
    Fronted(c0, hs[0], rest);
    FreeingHeld(h0, i, CellsOf(kids), CellsOf(rest));
    FreeingValue(c0, c1, c2, h1, h2, i);
    NamesUpdate(c2, i, FreeCell(link));
    Subtract(NamesIn(c0), NameIn(hs[0].value), NamesOf(kids), NamesOf(rest));
    NoName();
    SameTrans(c0, c1, c2, h1, h2, h2 - multiset{i}, i, FreeCell(link));
  }

  lemma FreeingValue(c0: seq<Cell>, c1: seq<Cell>, c2: seq<Cell>, h1: multiset<nat>, h2: multiset<nat>, i: nat)
    requires Same(c0, c1, h1) && Same(c1, c2, h2) && h2 <= h1 && i in h2
    ensures i < |c0| && i < |c2| && c2[i] == c0[i]
  {
  }

  /** Tags gained and then released leave everything in use as it was. */
  lemma Undone(c0: seq<Cell>, h0: multiset<nat>, c1: seq<Cell>, h1: multiset<nat>, hs: seq<Held>,
               c2: seq<Cell>, h2: multiset<nat>)
    requires Gained(c0, h0, c1, h1, hs) && Released(c1, h1, c2, h2, hs)
    ensures Gained(c0, h0, c2, h2, []) && h2 == h0 && NamesIn(c2) == NamesIn(c0)
  {
    hide NamesIn, NamesOf, CellsOf, Stored, NameIn, Same;
    PutBack(h0, CellsOf(hs));
    PutBack(NamesIn(c0), NamesOf(hs));
    assert h2 == h0;
    NothingStored(c2);
    SameTwice(c0, c1, c2, h0);
  }

  lemma PutBack<T>(a: multiset<T>, b: multiset<T>)
    ensures a + b - b == a
  {
  }

  lemma SameTwice(c0: seq<Cell>, c1: seq<Cell>, c2: seq<Cell>, h: multiset<nat>)
    requires Same(c0, c1, h) && Same(c1, c2, h)
    ensures Same(c0, c2, h)
  {
  }

  lemma NothingStored(cells: seq<Cell>)
    ensures Stored(cells, []) && CellsOf([]) == multiset{} && NamesOf([]) == multiset{}
  {
  }

  /** Two gains in a row, the second of nothing. */
  lemma GainedStill(c0: seq<Cell>, h0: multiset<nat>, c1: seq<Cell>, h1: multiset<nat>, hs: seq<Held>,
                    c2: seq<Cell>, h2: multiset<nat>)
    requires Gained(c0, h0, c1, h1, hs) && Gained(c1, h1, c2, h2, [])
    ensures Gained(c0, h0, c2, h2, hs)
  {
    StoredInside(c1, hs);
    assert forall j :: j in CellsOf(hs) ==> j in h1;
    StoredFrame(c1, c2, hs);
  }

  /** The cells `n..n + count` in order. */
  ghost function Range(base: nat, count: nat): (r: seq<nat>)
    ensures |r| == count && forall k :: 0 <= k < count ==> r[k] == base + k
    ensures forall i: nat :: multiset(r)[i] == if base <= i < base + count then 1 else 0
  {
    if count == 0 then [] else Range(base, count - 1) + [base + count - 1]
  }

  /** Free cells, cells in use and blocks add up. */
  lemma InUseIsNotFree(free: seq<nat>, held: multiset<nat>, n: nat)
    requires multiset(free) + held == All(n)
    ensures Once(held)
    ensures forall i :: i in held ==> i < n && i !in free
    ensures forall k :: 0 <= k < |free| ==> free[k] < n && free[k] !in held
    ensures forall j, k :: 0 <= j < k < |free| ==> free[j] != free[k]
    ensures |free| + |held| == n
  {
    forall i: nat
      ensures multiset(free)[i] + held[i] == if i < n then 1 else 0
    {
      assert (multiset(free) + held)[i] == All(n)[i];
    }
    forall i | i in held
      ensures i < n && held[i] == 1 && i !in free
    {
      assert multiset(free)[i] == 0;
    }
    forall k | 0 <= k < |free|
      ensures free[k] < n && free[k] !in held
    {
      assert free[k] in multiset(free);
    }
    forall j, k | 0 <= j < k < |free|
      ensures free[j] != free[k]
    {
      assert free == free[..k] + free[k..];
      assert multiset(free) == multiset(free[..k]) + multiset(free[k..]);
      assert free[..k][j] == free[j] && free[k..][0] == free[k];
      assert free[j] in multiset(free[..k]) && free[k] in multiset(free[k..]);
    }
    assert |multiset(free) + held| == |free| + |held|;
  }
}
