/** The list of interned strings: NewSymbol, FreeSymbol and FindSymbol. */
module PlistSymbols {
  import opened PlistPool

  /** What the other entries count. */
  ghost function Others(ss: seq<Entry>, i: nat): multiset<string>
    requires i < |ss|
  {
    Interned(ss[..i]) + Interned(ss[i + 1..])
  }

  lemma EntrySet(ss: seq<Entry>, i: nat, n: nat)
    requires Interning(ss) && i < |ss| && n > 0
    ensures Interning(ss[i := Entry(ss[i].text, n)])
    ensures Interned(ss) == Others(ss, i) + Times(ss[i].text, ss[i].refCount)
    ensures Interned(ss[i := Entry(ss[i].text, n)]) == Others(ss, i) + Times(ss[i].text, n)
  {
    hide Interned, Times;
    var after := ss[i := Entry(ss[i].text, n)];
    InternedSplit(ss, i);
    InternedSplit(after, i);
    assert after[..i] == ss[..i] && after[i + 1..] == ss[i + 1..];
  }

  lemma EntryRemoved(ss: seq<Entry>, i: nat)
    requires Interning(ss) && i < |ss|
    ensures Interning(ss[..i] + ss[i + 1..])
    ensures Interned(ss) == Others(ss, i) + Times(ss[i].text, ss[i].refCount)
    ensures Interned(ss[..i] + ss[i + 1..]) == Others(ss, i)
  {
    hide Interned, Times;
    InternedSplit(ss, i);
    InternedConcat(ss[..i], ss[i + 1..]);
  }

  lemma EntryAdded(ss: seq<Entry>, text: string)
    requires Interning(ss) && forall k :: 0 <= k < |ss| ==> ss[k].text != text
    ensures Interning([Entry(text, 1)] + ss)
    ensures Interned([Entry(text, 1)] + ss) == Interned(ss) + multiset{text}
  {
    var after := [Entry(text, 1)] + ss;
    assert after[1..] == ss;
    OneMore(text, 0);
  }

  lemma OneMore(text: string, n: nat)
    ensures Times(text, n + 1) == Times(text, n) + multiset{text}
    ensures Times(text, 0) == multiset{}
  {
  }

  class SymbolList {
    /** gSymbolsHead and its successors. */
    var symbols: seq<Entry>

    constructor ()
      ensures symbols == []
    {
      symbols := [];
    }

    /** The entry that holds `text`, or -1. Its predecessor in the list is the entry before. */
    method FindSymbol(text: string) returns (i: int)
      ensures i == -1 ==> forall k :: 0 <= k < |symbols| ==> symbols[k].text != text
      ensures i != -1 ==> 0 <= i < |symbols| && symbols[i].text == text
    {
      i := 0;
      while i < |symbols|
        invariant 0 <= i <= |symbols|
        invariant forall k :: 0 <= k < i ==> symbols[k].text != text
      {
        if symbols[i].text == text {
          return;
        }
        i := i + 1;
      }
      i := -1;
    }

    /** The string is counted once more, and stands in the list only once. */
    method NewSymbol(text: string)
      requires Interning(symbols)
      modifies this
      ensures Interning(symbols) && Interned(symbols) == old(Interned(symbols)) + multiset{text}
    {
      hide Interning, Interned, Times, Others;
      ghost var ss := symbols;
      var i := FindSymbol(text);
      if i == -1 {
        EntryAdded(ss, text);
        symbols := [Entry(text, 0)] + symbols;
        i := 0;
        assert symbols[0 := Entry(text, 1)] == [Entry(text, 1)] + ss;
      } else {
        EntrySet(ss, i, ss[i].refCount + 1);
        OneMore(text, ss[i].refCount);
      }
      symbols := symbols[i := Entry(text, symbols[i].refCount + 1)];
    }

    /** The string is counted once less, and leaves the list with its last count. */
    method FreeSymbol(text: string)
      requires Interning(symbols)
      modifies this
      ensures Interning(symbols) && Interned(symbols) == old(Interned(symbols)) - multiset{text}
    {
      var i := FindSymbol(text);
      if i == -1 {
        InternedAbsent(symbols, text);
        return;
      }
      var n := symbols[i].refCount - 1;
      var ss := symbols;
      OneMore(text, n);
      symbols := symbols[i := Entry(text, n)];
      if n != 0 {
        EntrySet(ss, i, n);
        return;
      }
      symbols := symbols[..i] + symbols[i + 1..];
      assert symbols == ss[..i] + ss[i + 1..];
      EntryRemoved(ss, i);
    }
  }
}
