/** The globals of the property list parser: NewTag and XMLFreeTag on the pool of tags. */
module PlistTags {
  import opened Plist
  import opened PlistPool
  import opened PlistSymbols

  lemma LinkedAround(cells: seq<Cell>, free: seq<nat>, i: nat, c: Cell)
    requires Linked(cells, free) && i < |cells| && i !in free
    ensures Linked(cells[i := c], free)
  {
  }

  lemma LinkedTail(cells: seq<Cell>, free: seq<nat>)
    requires Linked(cells, free) && free != []
    ensures Linked(cells, free[1..]) && free[0] < |cells|
    ensures cells[free[0]] == FreeCell(if free[1..] == [] then NIL else free[1..][0])
    ensures multiset(free) == multiset{free[0]} + multiset(free[1..])
  {
    var rest := free[1..];
    assert free == [free[0]] + rest;
    assert cells[free[0]] == FreeCell(After(free, 0));
    assert |free| > 1 ==> rest != [] && rest[0] == free[1];
    forall k | 0 <= k < |rest|
      ensures rest[k] < |cells| && cells[rest[k]] == FreeCell(After(rest, k))
    {
      assert rest[k] == free[k + 1];
      assert k + 1 < |rest| ==> rest[k + 1] == free[k + 2];
    }
  }

  lemma UsedInside(free: seq<nat>, held: multiset<nat>, n: nat)
    requires multiset(free) + held == All(n)
    ensures forall i :: i in held ==> i < n
  {
    InUseIsNotFree(free, held, n);
  }

  lemma Popped(cells: seq<Cell>, free: seq<nat>, held: multiset<nat>)
    requires Linked(cells, free) && free != [] && multiset(free) + held == All(|cells|)
    ensures Linked(cells, free[1..]) && free[0] < |cells| && free[0] !in held
    ensures cells[free[0]] == FreeCell(if free[1..] == [] then NIL else free[1..][0])
    ensures multiset(free[1..]) + (held + multiset{free[0]}) == All(|cells|)
  {
    LinkedTail(cells, free);
    InUseIsNotFree(free, held, |cells|);
  }

  lemma Pushed(cells: seq<Cell>, free: seq<nat>, held: multiset<nat>, i: nat)
    requires Linked(cells, free) && multiset(free) + held == All(|cells|) && i in held
    ensures i < |cells| && Linked(cells[i := FreeCell(if free == [] then NIL else free[0])], [i] + free)
    ensures multiset([i] + free) + (held - multiset{i}) == All(|cells|)
  {
    hide All, Linked;
    InUseIsNotFree(free, held, |cells|);
    PushedLinked(cells, free, i);
    assert multiset([i] + free) == multiset{i} + multiset(free);
    MoveOne(multiset(free), held, i);
  }

  lemma PushedLinked(cells: seq<Cell>, free: seq<nat>, i: nat)
    requires Linked(cells, free) && i < |cells| && i !in free
    ensures Linked(cells[i := FreeCell(if free == [] then NIL else free[0])], [i] + free)
  {
    var after, longer := cells[i := FreeCell(if free == [] then NIL else free[0])], [i] + free;
    forall k | 0 <= k < |longer|
      ensures longer[k] < |after| && after[longer[k]] == FreeCell(After(longer, k))
    {
      if k > 0 {
        assert longer[k] == free[k - 1];
        assert After(longer, k) == After(free, k - 1);
      }
    }
  }

  lemma MoveOne(a: multiset<nat>, b: multiset<nat>, i: nat)
    requires i in b
    ensures multiset{i} + a + (b - multiset{i}) == a + b
  {
  }

  /** The pieces of a tag list. */
  lemma Parts(cells: seq<Cell>, hs: seq<Held>, h: multiset<nat>)
    requires hs != [] && Stored(cells, hs) && CellsOf(hs) <= h
    ensures hs[0].cell < |cells| && Proper(hs[0].kind, hs[0].value)
    ensures cells[hs[0].cell] == Cell(hs[0].kind, hs[0].value, Head(hs[0].kids), Head(hs[1..]))
    ensures Stored(cells, hs[0].kids) && Stored(cells, hs[1..]) && CellsOf(hs[0].kids) <= h
    ensures NamesOf(hs) == NameIn(hs[0].value) + NamesOf(hs[0].kids) + NamesOf(hs[1..])
    ensures Size(hs[0].kids) < Size(hs) && Size(hs[1..]) < Size(hs)
  {
  }

  /** Taking away one part after the other is taking them all away. */
  lemma Taking(n: multiset<string>, x: multiset<string>, a: multiset<string>, b: multiset<string>)
    requires x + a + b <= n
    ensures a <= n - x && b <= n - x - a && n - x - a - b == n - (x + a + b)
  {
  }

  lemma NothingReleased(cells: seq<Cell>, held: multiset<nat>, names: multiset<string>)
    requires forall i :: i in held ==> i < |cells|
    ensures Released(cells, held, cells, held, [])
    ensures names - NamesOf([]) == names
  {
  }

  lemma RangeLinked(cells: seq<Cell>, block: seq<Cell>)
    requires |block| > 0
    requires forall k :: 0 <= k < |block| ==>
               block[k] == FreeCell(if k + 1 < |block| then |cells| + k + 1 else NIL)
    ensures Linked(cells + block, Range(|cells|, |block|))
    ensures NamesIn(cells + block) == NamesIn(cells)
  {
    hide NamesIn;
    NamesConcat(cells, block);
    NamesOfClear(block);
    var free, after := Range(|cells|, |block|), cells + block;
    forall k | 0 <= k < |free|
      ensures free[k] < |after| && after[free[k]] == FreeCell(After(free, k))
    {
      assert after[free[k]] == block[k];
    }
  }

  lemma RangeAll(base: nat, count: nat)
    ensures multiset(Range(base, count)) + All(base) == All(base + count)
  {
    hide Range, All;
  }

  /** The initialisation of a new block whose first tag will be number `base`. */
  method FreshBlock(base: nat) returns (block: seq<Cell>)
    ensures |block| == TAGS_PER_BLOCK
    ensures forall k :: 0 <= k < |block| ==> block[k] == FreeCell(if k + 1 < |block| then base + k + 1 else NIL)
  {
    block := [];
    var cnt := 0;
    while cnt < TAGS_PER_BLOCK
      invariant cnt <= TAGS_PER_BLOCK && |block| == cnt
      invariant forall k :: 0 <= k < cnt ==> block[k] == FreeCell(base + k + 1)
    {
      block := block + [FreeCell(base + cnt + 1)];
      cnt := cnt + 1;
    }
    block := block[TAGS_PER_BLOCK - 1 := block[TAGS_PER_BLOCK - 1].(tagNext := NIL)];
  }

  class TagPool {
    var cells: seq<Cell>
    var gTagsFree: int
    const interned: SymbolList
    ghost var blocks: nat
    ghost var free: seq<nat>
    ghost var held: multiset<nat>

    /** Every cell is either on the free list or in use, once. */
    ghost predicate Pool()
      reads this, interned
    {
      Linked(cells, free) && gTagsFree == (if free == [] then NIL else free[0]) &&
      multiset(free) + held == All(|cells|) && |cells| == blocks * TAGS_PER_BLOCK &&
      Interning(interned.symbols)
    }

    /** Besides, every string is counted as often as tags name it. */
    ghost predicate Valid()
      reads this, interned
    {
      Pool() && Interned(interned.symbols) == NamesIn(cells)
    }

    constructor ()
      ensures Valid() && fresh(interned) && held == multiset{} && blocks == 0
    {
      cells, gTagsFree := [], NIL;
      blocks, free, held := 0, [], multiset{};
      interned := new SymbolList();
    }

    /** In every valid state, free and live tags make up the blocks obtained, and each string's
        count is the number of tags naming it. */
    lemma Conservation()
      requires Valid()
      ensures |free| + |held| == TAGS_PER_BLOCK * blocks
      ensures forall i :: 0 <= i < |interned.symbols| ==>
                interned.symbols[i].refCount == NamesIn(cells)[interned.symbols[i].text]
      ensures forall text :: text in NamesIn(cells) ==>
                exists i :: 0 <= i < |interned.symbols| && interned.symbols[i].text == text
    {
      InUseIsNotFree(free, held, |cells|);
      forall i | 0 <= i < |interned.symbols|
        ensures interned.symbols[i].refCount == NamesIn(cells)[interned.symbols[i].text]
      {
        CountIsMultiplicity(interned.symbols, i);
      }
      forall text | text in NamesIn(cells)
        ensures exists i :: 0 <= i < |interned.symbols| && interned.symbols[i].text == text
      {
        if forall i :: 0 <= i < |interned.symbols| ==> interned.symbols[i].text != text {
          InternedAbsent(interned.symbols, text);
        }
      }
    }

    /** A block of fresh tags becomes the free list. */
    method NewBlock()
      requires Pool() && gTagsFree == NIL
      modifies this
      ensures Pool() && gTagsFree != NIL && blocks == old(blocks) + 1
      ensures old(cells) <= cells && held == old(held) && NamesIn(cells) == old(NamesIn(cells))
      ensures interned.symbols == old(interned.symbols)
    {
      hide NamesIn, All, Linked, Interning, Range;
      var block := FreshBlock(|cells|);
      RangeLinked(cells, block);
      RangeAll(|cells|, |block|);
      assert multiset(free) == multiset{};
      gTagsFree := |cells|;
      blocks, free := blocks + 1, Range(|cells|, |block|);
      cells := cells + block;
    }

    /** One tag off the free list; what is in use stays as it is. */
    method NewTag() returns (tag: nat)
      requires Pool()
      modifies this
      ensures Pool() && blocks == old(blocks) + (if old(free) == [] then 1 else 0)
      ensures old(free) != [] ==> tag == old(free)[0] && free == old(free)[1..]
      ensures |old(cells)| <= |cells| && tag < |cells| && cells[tag].value == Null
      ensures NamesIn(cells) == old(NamesIn(cells)) && interned.symbols == old(interned.symbols)
      ensures held == old(held) + multiset{tag} && tag !in old(held)
      ensures Same(old(cells), cells, old(held))
    {
      hide NamesIn, All, Linked, Interning;
      UsedInside(free, held, |cells|);
      if gTagsFree == NIL {
        NewBlock();
      }
      Popped(cells, free, held);
      tag := gTagsFree;
      gTagsFree := cells[tag].tagNext;
      held := held + multiset{tag};
      free := free[1..];
    }

    /** Clears a tag and puts it at the head of the free list. */
    method Recycle(tag: nat)
      requires Pool() && tag in held
      modifies this
      ensures Pool() && blocks == old(blocks) && tag < |cells|
      ensures cells == old(cells)[tag := FreeCell(old(gTagsFree))] && free == [tag] + old(free)
      ensures held == old(held) - multiset{tag}
    {
      hide Linked, All, Interning;
      Pushed(cells, free, held, tag);
      cells := cells[tag := FreeCell(gTagsFree)];
      gTagsFree := tag;
      held := held - multiset{tag};
      free := [tag] + free;
    }

    /** Gives up the string of a tag, if it has one. */
    method ReleaseString(tag: nat)
      requires Pool() && tag < |cells| && Proper(cells[tag].kind, cells[tag].value)
      modifies interned
      ensures Pool() && Interned(interned.symbols) == old(Interned(interned.symbols)) - NameIn(cells[tag].value)
    {
      hide Linked, All, Interning, Interned;
      if cells[tag].value != Null && cells[tag].kind != Integer {
        interned.FreeSymbol(cells[tag].value.text);
      }
    }

    /** Frees the tags of the list at `tag` with all that is below them, and their strings. In
        a valid state every tree in use may be freed, and the state stays valid. */
    method XMLFreeTag(tag: int, ghost hs: seq<Held>)
      requires Pool() && Stored(cells, hs) && tag == Head(hs) && CellsOf(hs) <= held
      requires Valid() || NamesOf(hs) <= Interned(interned.symbols)
      modifies this, interned
      ensures Pool() && blocks == old(blocks)
      ensures old(Valid()) ==> Valid()
      ensures Released(old(cells), old(held), cells, held, hs)
      ensures Interned(interned.symbols) == old(Interned(interned.symbols)) - NamesOf(hs)
      decreases Size(hs)
    {
      hide CellsOf, NamesOf, NamesIn, Stored, NameIn, Linked, All, Interning, Interned, Released, Size, Once, Pool,
           Valid;
      ghost var valid := Valid();
      if valid {
        CanFree(hs);
      }
      ghost var c0, h0, n0 := cells, held, Interned(interned.symbols);
      if tag == NIL {
        HeldOnce();
        NothingReleased(cells, held, n0);
        return;
      }
      ghost var kids, rest := hs[0].kids, hs[1..];
      HeldOnce();
      Parts(c0, hs, h0);
      ghost var x := NameIn(hs[0].value);
      Taking(n0, x, NamesOf(kids), NamesOf(rest));
      ReleaseString(tag);
      XMLFreeTag(cells[tag].tag, kids);
      ghost var c1, h1 := cells, held;
      PartsApart(c0, h0, c1, h1, hs);
      XMLFreeTag(cells[tag].tagNext, rest);
      Freeing(c0, h0, c1, h1, cells, held, hs, gTagsFree);
      Recycle(tag);
      if valid {
        ValidAfterRelease(c0, h0, n0, hs);
      }
    }

    /** Sets the fields of a tag in use. */
    method Fill(tag: nat, kind: Kind, value: Value, sub: int, next: int)
      requires Pool() && tag in held
      modifies `cells
      ensures Pool() && tag < |cells| && cells == old(cells)[tag := Cell(kind, value, sub, next)]
    {
      hide All, Interning;
      InUseIsNotFree(free, held, |cells|);
      LinkedAround(cells, free, tag, Cell(kind, value, sub, next));
      cells := cells[tag := Cell(kind, value, sub, next)];
    }

    /** Freeing keeps the counts right. */
    lemma ValidAfterRelease(c0: seq<Cell>, h0: multiset<nat>, names: multiset<string>, hs: seq<Held>)
      requires Pool() && Released(c0, h0, cells, held, hs) && names == NamesIn(c0)
      requires Interned(interned.symbols) == names - NamesOf(hs)
      ensures Valid()
    {
    }

    /** Between calls, whoever holds a tree may free it. */
    lemma CanFree(hs: seq<Held>)
      requires Valid() && Stored(cells, hs) && CellsOf(hs) <= held
      ensures NamesOf(hs) <= Interned(interned.symbols) == NamesIn(cells)
    {
      HeldOnce();
      NamesInside(cells, hs, held);
    }

    lemma HeldOnce()
      requires Pool()
      ensures Once(held) && forall i :: i in held ==> i < |cells|
    {
      InUseIsNotFree(free, held, |cells|);
    }
  }
}
