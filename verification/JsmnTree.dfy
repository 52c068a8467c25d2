/** The tokens of the JSDT tokenizer as trees: what a flat token array stands for. */
module JsmnTree {
  datatype Kind = Primitive | Object | Array | Str | Children

  /** `size` counts the direct children begun; `end` is -1 while a bracket is open. */
  datatype Token = Token(kind: Kind, start: int, end: int, size: nat)

  datatype Tree = Leaf(kind: Kind, start: nat, end: nat)
                | Node(kind: Kind, start: nat, end: nat, kids: seq<Tree>)

  predicate IsOpen(t: Token) {
    t.start != -1 && t.end == -1
  }

  // ----- Pre-order listing

  function Pre(t: Tree): (s: seq<Token>)
    ensures |s| >= 1
    decreases t, 1
  {
    match t
    case Leaf(k, a, e) => [Token(k, a, e, 0)]
    case Node(k, a, e, kids) => [Token(k, a, e, |kids|)] + PreAll(kids)
  }

  function PreAll(ts: seq<Tree>): (s: seq<Token>)
    ensures |s| >= |ts|
    decreases ts, 0
  {
    if ts == [] then [] else Pre(ts[0]) + PreAll(ts[1..])
  }

  lemma {:induction false} PreAllConcat(a: seq<Tree>, b: seq<Tree>)
    ensures PreAll(a + b) == PreAll(a) + PreAll(b)
  {
    if a == [] {
      assert a + b == b;
    } else {
      assert (a + b)[1..] == a[1..] + b;
      PreAllConcat(a[1..], b);
    }
  }

  lemma PreAllSnoc(a: seq<Tree>, t: Tree)
    ensures PreAll(a + [t]) == PreAll(a) + Pre(t)
  {
    PreAllConcat(a, [t]);
    assert [t][1..] == [];
    assert PreAll([t]) == Pre(t) + [];
  }

  // ----- Listing with brackets still open

  /** A bracket read but not yet closed, with its finished children. */
  datatype Frame = Frame(kind: Kind, start: nat, kids: seq<Tree>)

  /** Finished trees at the top level, and the open brackets, outermost first. */
  datatype Nest = Nest(top: seq<Tree>, stack: seq<Frame>)

  /** The tokens of a nest when `more` further children of the innermost open bracket
      have been begun. Every bracket around another has one such child. */
  function FlatWith(top: seq<Tree>, stack: seq<Frame>, more: nat): seq<Token> {
    if stack == [] then PreAll(top)
    else
      var f := stack[|stack| - 1];
      FlatWith(top, stack[..|stack| - 1], 1) + [Token(f.kind, f.start, -1, |f.kids| + more)] + PreAll(f.kids)
  }

  function Flat(n: Nest): seq<Token> {
    FlatWith(n.top, n.stack, 0)
  }

  /** Index of the innermost open bracket's token, -1 if there is none. */
  function Super(n: Nest): (i: int)
    ensures -1 <= i < |Flat(n)|
    ensures i == -1 <==> n.stack == []
  {
    if n.stack == [] then -1 else |FlatWith(n.top, n.stack[..|n.stack| - 1], 1)|
  }

  /** A finished tree becomes the last child of the innermost open bracket. */
  function Attach(n: Nest, t: Tree): Nest {
    if n.stack == [] then Nest(n.top + [t], [])
    else
      var f := n.stack[|n.stack| - 1];
      Nest(n.top, n.stack[..|n.stack| - 1] + [f.(kids := f.kids + [t])])
  }

  function Push(n: Nest, k: Kind, start: nat): Nest {
    Nest(n.top, n.stack + [Frame(k, start, [])])
  }

  /** Close the innermost bracket. */
  function Pop(n: Nest, end: nat): Nest
    requires n.stack != []
  {
    var f := n.stack[|n.stack| - 1];
    Attach(Nest(n.top, n.stack[..|n.stack| - 1]), Node(f.kind, f.start, end, f.kids))
  }

  /** The innermost open bracket has begun one more child. */
  function Bumped(s: seq<Token>, super: int): (r: seq<Token>)
    requires -1 <= super < |s|
    ensures |r| == |s|
  {
    if super == -1 then s else s[super := s[super].(size := s[super].size + 1)]
  }

  lemma BumpedFlat(n: Nest)
    ensures Bumped(Flat(n), Super(n)) == FlatWith(n.top, n.stack, 1)
  {
    if n.stack != [] {
      var f := n.stack[|n.stack| - 1];
      var a := FlatWith(n.top, n.stack[..|n.stack| - 1], 1);
      assert Flat(n) == a + [Token(f.kind, f.start, -1, |f.kids|)] + PreAll(f.kids);
      assert Flat(n)[|a|] == Token(f.kind, f.start, -1, |f.kids|);
    }
  }

  lemma AttachLeaf(n: Nest, k: Kind, a: nat, e: nat)
    ensures Flat(Attach(n, Leaf(k, a, e))) == Bumped(Flat(n), Super(n)) + [Token(k, a, e, 0)]
    ensures Super(Attach(n, Leaf(k, a, e))) == Super(n)
  {
    BumpedFlat(n);
    var t := Leaf(k, a, e);
    if n.stack == [] {
      PreAllSnoc(n.top, t);
    } else {
      var f := n.stack[|n.stack| - 1];
      PreAllSnoc(f.kids, t);
      var m := Attach(n, t);
      assert m.stack[..|m.stack| - 1] == n.stack[..|n.stack| - 1];
    }
  }

  lemma PushFlat(n: Nest, k: Kind, a: nat)
    ensures Flat(Push(n, k, a)) == Bumped(Flat(n), Super(n)) + [Token(k, a, -1, 0)]
    ensures Super(Push(n, k, a)) == |Flat(n)|
  {
    BumpedFlat(n);
    var m := Push(n, k, a);
    assert m.stack[..|m.stack| - 1] == n.stack;
  }

  /** Closing a bracket only sets the end of its token. */
  lemma PopFlat(n: Nest, e: nat)
    requires n.stack != []
    ensures var i := Super(n); var s := Flat(n);
            Flat(Pop(n, e)) == s[i := s[i].(end := e)]
    ensures Super(Pop(n, e)) == Super(Nest(n.top, n.stack[..|n.stack| - 1])) < Super(n)
  {
    var init, f := n.stack[..|n.stack| - 1], n.stack[|n.stack| - 1];
    var outer := Nest(n.top, init);
    var t := Node(f.kind, f.start, e, f.kids);
    var a := FlatWith(n.top, init, 1);
    BumpedFlat(outer);
    assert Flat(n) == a + [Token(f.kind, f.start, -1, |f.kids|)] + PreAll(f.kids);
    if init == [] {
      PreAllSnoc(n.top, t);
    } else {
      var g := init[|init| - 1];
      PreAllSnoc(g.kids, t);
      var m := Pop(n, e);
      assert m.stack[..|m.stack| - 1] == init[..|init| - 1];
    }
  }

  // ----- Open and closed tokens

  lemma {:induction false} PreClosed(t: Tree)
    ensures forall i :: 0 <= i < |Pre(t)| ==> !IsOpen(Pre(t)[i])
    decreases t, 1
  {
    match t
    case Leaf(_, _, _) =>
    case Node(_, _, _, kids) => PreAllClosed(kids);
  }

  lemma {:induction false} PreAllClosed(ts: seq<Tree>)
    ensures forall i :: 0 <= i < |PreAll(ts)| ==> !IsOpen(PreAll(ts)[i])
    decreases ts, 0
  {
    if ts != [] {
      PreClosed(ts[0]);
      PreAllClosed(ts[1..]);
    }
  }

  /** The innermost open bracket is the last open token. */
  lemma SuperIsLastOpen(n: Nest)
    ensures var s, i := Flat(n), Super(n);
            && (i >= 0 ==> IsOpen(s[i]) && s[i].kind == n.stack[|n.stack| - 1].kind)
            && forall j :: i < j < |s| ==> !IsOpen(s[j])
  {
    if n.stack == [] {
      PreAllClosed(n.top);
    } else {
      var f := n.stack[|n.stack| - 1];
      PreAllClosed(f.kids);
      var a := FlatWith(n.top, n.stack[..|n.stack| - 1], 1);
      assert Flat(n) == a + [Token(f.kind, f.start, -1, |f.kids|)] + PreAll(f.kids);
    }
  }
}
