/** The tokenizer built with parent links: closing brackets climb from the last token instead
    of scanning all of them. */
module JsmnLinks {
  import opened JsmnTree
  import opened Jsmn
  import opened JsmnParser

  // ----- The parent of every token

  /** Parents of a tree's tokens when the tree starts at index `base` below token `up`. */
  function ParentsOf(t: Tree, base: nat, up: int): (s: seq<int>)
    ensures |s| == |Pre(t)|
    decreases t, 1
  {
    [up] + match t
           case Leaf(_, _, _) => []
           case Node(_, _, _, kids) => ParentsOfAll(kids, base + 1, base)
  }

  function ParentsOfAll(ts: seq<Tree>, base: nat, up: int): (s: seq<int>)
    ensures |s| == |PreAll(ts)|
    decreases ts, 0
  {
    if ts == [] then [] else ParentsOf(ts[0], base, up) + ParentsOfAll(ts[1..], base + |Pre(ts[0])|, up)
  }

  /** The innermost open bracket outside the last frame. */
  function Outer(n: Nest): Nest
    requires n.stack != []
  {
    Nest(n.top, n.stack[..|n.stack| - 1])
  }

  lemma OuterSize(n: Nest)
    requires n.stack != []
    ensures |Flat(Outer(n))| == Super(n)
  {
    BumpedFlat(Outer(n));
  }

  function Parents(n: Nest): (s: seq<int>)
    ensures |s| == |Flat(n)|
    decreases |n.stack|
  {
    if n.stack == [] then ParentsOfAll(n.top, 0, -1)
    else
      OuterSize(n);
      Parents(Outer(n)) + [Super(Outer(n))] + ParentsOfAll(n.stack[|n.stack| - 1].kids, Super(n) + 1, Super(n))
  }

  lemma ParentsSingle(t: Tree, base: nat, up: int)
    ensures ParentsOfAll([t], base, up) == ParentsOf(t, base, up)
  {
    hide ParentsOf, Pre;
    assert [t][1..] == [] && ParentsOfAll([], base + |Pre(t)|, up) == [];
  }

  lemma ParentsStep(ts: seq<Tree>, base: nat, up: int)
    requires ts != []
    ensures ParentsOfAll(ts, base, up) == ParentsOf(ts[0], base, up) + ParentsOfAll(ts[1..], base + |Pre(ts[0])|, up)
    ensures |PreAll(ts)| == |Pre(ts[0])| + |PreAll(ts[1..])|
  {
    hide ParentsOf, Pre;
  }

  lemma SnocRest(ts: seq<Tree>, t: Tree)
    requires ts != []
    ensures (ts + [t])[0] == ts[0] && (ts + [t])[1..] == ts[1..] + [t]
  {
  }

  lemma {:induction false} ParentsSnoc(ts: seq<Tree>, t: Tree, base: nat, up: int)
    ensures ParentsOfAll(ts + [t], base, up) == ParentsOfAll(ts, base, up) + ParentsOf(t, base + |PreAll(ts)|, up)
    decreases ts, 1
  {
    if ts == [] {
      assert ts + [t] == [t];
      ParentsSingle(t, base, up);
    } else {
      ParentsSnocStep(ts, t, base, up);
    }
  }

  lemma {:induction false} ParentsSnocStep(ts: seq<Tree>, t: Tree, base: nat, up: int)
    requires ts != []
    ensures ParentsOfAll(ts + [t], base, up) == ParentsOfAll(ts, base, up) + ParentsOf(t, base + |PreAll(ts)|, up)
    decreases ts, 0
  {
    hide Pre, PreAll, ParentsOf, ParentsOfAll;
    var next := base + |Pre(ts[0])|;
    SnocRest(ts, t);
    ParentsStep(ts, base, up);
    ParentsStep(ts + [t], base, up);
    ParentsSnoc(ts[1..], t, next, up);
    Associate(ParentsOf(ts[0], base, up), ParentsOfAll(ts[1..], next, up), ParentsOf(t, next + |PreAll(ts[1..])|, up));
  }

  lemma Associate(a: seq<int>, b: seq<int>, c: seq<int>)
    ensures a + (b + c) == (a + b) + c
  {
  }

  function Kids(n: Nest): seq<Tree>
    requires n.stack != []
  {
    n.stack[|n.stack| - 1].kids
  }

  lemma FrameParents(n: Nest)
    requires n.stack != []
    ensures Parents(n) == Parents(Outer(n)) + [Super(Outer(n))] + ParentsOfAll(Kids(n), Super(n) + 1, Super(n))
    ensures |Flat(n)| == Super(n) + 1 + |PreAll(Kids(n))|
  {
    hide ParentsOfAll, PreAll;
    OuterSize(n);
  }

  lemma AttachOuter(n: Nest, t: Tree)
    requires n.stack != []
    ensures var m := Attach(n, t);
            m.stack != [] && Outer(m) == Outer(n) && Super(m) == Super(n) && Kids(m) == Kids(n) + [t]
  {
    var m := Attach(n, t);
    assert m.stack[..|m.stack| - 1] == n.stack[..|n.stack| - 1];
  }

  lemma AttachTop(n: Nest, t: Tree)
    requires n.stack == []
    ensures Parents(Attach(n, t)) == Parents(n) + ParentsOf(t, |Flat(n)|, Super(n))
  {
    hide ParentsOfAll, ParentsOf, PreAll;
    ParentsSnoc(n.top, t, 0, -1);
  }

  lemma AttachFrame(n: Nest, t: Tree)
    requires n.stack != []
    ensures Parents(Attach(n, t)) == Parents(n) + ParentsOf(t, |Flat(n)|, Super(n))
  {
    hide Parents, Flat, Super, ParentsOf, ParentsOfAll, PreAll, Attach, Outer, Kids;
    var i := Super(n);
    var kids, end := ParentsOfAll(Kids(n), i + 1, i), ParentsOf(t, |Flat(n)|, i);
    FrameParents(n);
    AttachOuter(n, t);
    FrameParents(Attach(n, t));
    ParentsSnoc(Kids(n), t, i + 1, i);
    assert Parents(Attach(n, t)) == Parents(Outer(n)) + [Super(Outer(n))] + (kids + end);
  }

  /** A finished tree's root is a child of the innermost open bracket. */
  lemma AttachParents(n: Nest, t: Tree)
    ensures Parents(Attach(n, t)) == Parents(n) + ParentsOf(t, |Flat(n)|, Super(n))
  {
    hide Parents, Flat, Super, ParentsOf, Attach;
    if n.stack == [] {
      AttachTop(n, t);
    } else {
      AttachFrame(n, t);
    }
  }

  lemma PushParents(n: Nest, k: Kind, start: nat)
    ensures Parents(Push(n, k, start)) == Parents(n) + [Super(n)]
  {
    var m := Push(n, k, start);
    assert Outer(m) == n;
  }

  /** Closing a bracket changes no parent. */
  lemma PopParents(n: Nest, end: nat)
    requires n.stack != []
    ensures Parents(Pop(n, end)) == Parents(n)
  {
    hide Parents, Flat, Super, ParentsOfAll, PreAll, Attach;
    var f := n.stack[|n.stack| - 1];
    OuterSize(n);
    FrameParents(n);
    AttachParents(Outer(n), Node(f.kind, f.start, end, f.kids));
  }

  /** Every entry is `up` or an index at or behind it, before its own, when the entries
      stand from index `base` on. */
  predicate Backward(s: seq<int>, base: nat, up: int) {
    forall j :: 0 <= j < |s| ==> up <= s[j] < base + j
  }

  lemma BackwardConcat(a: seq<int>, b: seq<int>, base: nat, up: int)
    requires Backward(a, base, up) && Backward(b, base + |a|, up)
    ensures Backward(a + b, base, up)
  {
    forall j | 0 <= j < |a + b|
      ensures up <= (a + b)[j] < base + j
    {
      if j >= |a| {
        assert (a + b)[j] == b[j - |a|];
      }
    }
  }

  lemma {:induction false} ParentsRange(ts: seq<Tree>, base: nat, up: int)
    requires up < base
    ensures Backward(ParentsOfAll(ts, base, up), base, up)
    decreases ts, 1
  {
    if ts != [] {
      hide Backward, ParentsOf, Pre;
      ParentOwnRange(ts[0], base, up);
      ParentsRange(ts[1..], base + |Pre(ts[0])|, up);
      BackwardConcat(ParentsOf(ts[0], base, up), ParentsOfAll(ts[1..], base + |Pre(ts[0])|, up), base, up);
    }
  }

  lemma {:induction false} ParentOwnRange(t: Tree, base: nat, up: int)
    requires up < base
    ensures Backward(ParentsOf(t, base, up), base, up)
    decreases t, 0
  {
    if t.Node? {
      ParentsRange(t.kids, base + 1, base);
      BackwardConcat([up], ParentsOfAll(t.kids, base + 1, base), base, up);
    }
  }

  /** Behind the innermost open bracket the links lead backwards, but never past it. */
  lemma LinksStayInside(n: Nest)
    ensures forall j :: Super(n) < j < |Parents(n)| ==> Super(n) <= Parents(n)[j] < j
    ensures n.stack != [] ==> Parents(n)[Super(n)] == Super(Outer(n))
  {
    if n.stack == [] {
      ParentsRange(n.top, 0, -1);
    } else {
      var kids := n.stack[|n.stack| - 1].kids;
      OuterSize(n);
      var s := ParentsOfAll(kids, Super(n) + 1, Super(n));
      ParentsRange(kids, Super(n) + 1, Super(n));
      forall j | Super(n) < j < |Parents(n)|
        ensures Super(n) <= Parents(n)[j] < j
      {
        assert Parents(n)[j] == s[j - (Super(n) + 1)];
      }
    }
  }

  // ----- The machine with links

  /** As the machine of module Jsmn, except that a closing bracket with nothing open is
      passed over, unless there is no token at all. */
  function StepLinked(l: Lexeme, pos: nat, cap: nat, n: Nest): Next {
    if l.Closing? && n.stack == [] && Flat(n) != [] then Go(n) else Step(l, pos, cap, n)
  }

  function RunLinked(js: string, pos: nat, cap: nat, n: Nest): (r: Result)
    requires pos <= |js|
    ensures pos <= r.pos <= |js|
    decreases |js| - pos
  {
    var l := Lex(js, pos);
    match StepLinked(l, pos, cap, n)
    case Stop(o) => Result(o, pos, n)
    case Go(m) => RunLinked(js, l.next, cap, m)
  }

  /** The scanning build stopped at a closing bracket with tokens read but nothing open. */
  predicate Unmatched(js: string, r: Result) {
    r.outcome == Inval && r.pos <= |js| && Lex(js, r.pos).Closing? && r.nest.stack == [] && Flat(r.nest) != []
  }

  /** Both builds do the same exactly when the scanning one does not stop that way. */
  lemma {:induction false} SameUnlessUnmatched(js: string, pos: nat, cap: nat, n: Nest)
    requires pos <= |js|
    ensures RunLinked(js, pos, cap, n) == Run(js, pos, cap, n) <==> !Unmatched(js, Run(js, pos, cap, n))
    decreases |js| - pos
  {
    hide Lex, Flat;
    var l := Lex(js, pos);
    match Step(l, pos, cap, n)
    case Go(m) => SameUnlessUnmatched(js, l.next, cap, m);
    case Stop(o) =>
  }

  /** Whatever the scanning build accepts, this one accepts with the same tokens. */
  lemma AcceptedAlike(js: string, cap: nat)
    requires Jsmn.Parse(js, cap).outcome == Success
    ensures RunLinked(js, 0, cap, Nest([], [])) == Jsmn.Parse(js, cap)
  {
    SameUnlessUnmatched(js, 0, cap, Nest([], []));
  }

  /** But it also accepts texts the scanning build rejects. */
  lemma AcceptsMore()
    ensures Jsmn.Parse("@]", 1).outcome == Inval
    ensures RunLinked("@]", 0, 1, Nest([], [])).outcome == Success
  {
    var js := "@]";
    var n := Nest([], []);
    var m := Attach(n, Leaf(Children, 0, 0));
    assert Lex(js, 0) == Atom(Children, 0, 0, 1) && Lex(js, 1) == Closing(Array, 2) && Lex(js, 2) == Finished;
    AttachLeaf(n, Children, 0, 0);
    NothingRead();
    assert Step(Lex(js, 0), 0, 1, n) == Go(m);
    assert Run(js, 1, 1, m).outcome == Inval;
    assert RunLinked(js, 2, 1, m).outcome == Success;
    assert RunLinked(js, 1, 1, m).outcome == Success;
  }

  // ----- The code with links

  ghost predicate Linked(p: Parser, tokens: array<Token>, parents: array<int>, n: Nest)
    reads p, tokens, parents
  {
    p.Represents(tokens, n) && parents.Length == tokens.Length && parents[..p.toknext] == Parents(n)
  }

  /** Closing bracket: the first open token on the chain of parents is the innermost open
      bracket, which the scan would find. */
  method CloseBracket(p: Parser, tokens: array<Token>, parents: array<int>, kind: Kind, ghost n: Nest)
    returns (r: Outcome, ghost m: Nest)
    requires Linked(p, tokens, parents, n)
    modifies p`toksuper, tokens
    ensures StepLinked(Closing(kind, p.pos + 1), p.pos, tokens.Length, n) == if r == Success then Go(m) else Stop(r)
    ensures r != Success ==> m == n
    ensures Linked(p, tokens, parents, m)
  {
    hide Flat, Pop, Parents, Super;
    m := n;
    if p.toknext < 1 {
      NoTokens(n);
      return Inval, n;
    }
    SuperIsLastOpen(n);
    LinksStayInside(n);
    var i := p.toknext - 1;
    while true
      invariant 0 <= i < p.toknext && Super(n) <= i
      decreases i
    {
      assert tokens[i] == tokens[..p.toknext][i] == Flat(n)[i];
      assert parents[i] == parents[..p.toknext][i] == Parents(n)[i];
      if IsOpen(tokens[i]) {
        assert i == Super(n);
        if tokens[i].kind != kind {
          return Inval, n;
        }
        PopFlat(n, p.pos + 1);
        PopParents(n, p.pos + 1);
        m := Pop(n, p.pos + 1);
        tokens[i] := tokens[i].(end := p.pos + 1);
        p.toksuper := parents[i];
        assert tokens[..p.toknext] == Flat(m);
        return Success, m;
      }
      if parents[i] == -1 {
        break;
      }
      i := parents[i];
    }
    r := Success;
  }

  lemma NoTokens(n: Nest)
    requires Flat(n) == []
    ensures n.stack == []
  {
    assert -1 <= Super(n) < |Flat(n)|;
  }

  /** One character: a new token's parent is the bracket that was innermost before it. */
  method TakeCharacter(p: Parser, js: string, tokens: array<Token>, parents: array<int>, ghost n: Nest)
    returns (r: Outcome, ghost m: Nest)
    requires Linked(p, tokens, parents, n) && p.pos < |js|
    modifies p, tokens, parents
    ensures var l := Lex(js, old(p.pos));
            match StepLinked(l, old(p.pos), tokens.Length, n)
            case Go(n') => r == Success && m == n' && p.pos + 1 == l.next
            case Stop(o) => r == o && o != Success && m == n && (o != RunsOff ==> p.pos == old(p.pos))
    ensures Linked(p, tokens, parents, m)
  {
    hide Flat, Attach, Push, Pop, Super, Parents;
    var c := js[p.pos];
    if c == '}' || c == ']' {
      r, m := CloseBracket(p, tokens, parents, if c == '}' then Object else Array, n);
      return;
    }
    ghost var l := Lex(js, p.pos);
    NewParents(l, p.pos, tokens.Length, n);
    var super, before := p.toksuper, p.toknext;
    r, m := p.TakeCharacter(js, tokens, tokens.Length, n);
    assert p.toknext == |Parents(m)|;
    if p.toknext > before {
      parents[before] := super;
    }
  }

  /** What a lexeme other than a closing bracket does to the parents. */
  lemma NewParents(l: Lexeme, pos: nat, cap: nat, n: Nest)
    requires !l.Closing?
    ensures Step(l, pos, cap, n).Go? ==>
              var m := Step(l, pos, cap, n).nest;
              if l.Skip? then m == n else Parents(m) == Parents(n) + [Super(n)]
  {
    hide Parents, Flat, Super, Attach, Push;
    match l
    case Atom(k, a, e, _) => AttachParents(n, Leaf(k, a, e));
    case Opening(k, _) => PushParents(n, k, pos);
    case _ =>
  }

  /** jsmn_parse of this build: same tokens, same innermost open bracket as the machine with
      links, and the right parent in every token. */
  method Parse(p: Parser, js: string, tokens: array<Token>, parents: array<int>) returns (r: Outcome)
    requires p.pos == 0 && p.toknext == 0 && p.toksuper == -1 && parents.Length == tokens.Length
    modifies p, tokens, parents
    ensures var result := RunLinked(js, 0, tokens.Length, Nest([], []));
            && r == result.outcome
            && (r != RunsOff ==> p.pos == result.pos)
            && Linked(p, tokens, parents, result.nest)
  {
    hide Flat, Super, Step, Lex, Parents;
    ghost var n := Nest([], []);
    NothingRead();
    assert parents[..0] == [];
    while p.pos < |js|
      invariant p.pos <= |js|
      invariant Linked(p, tokens, parents, n)
      invariant RunLinked(js, p.pos, tokens.Length, n) == RunLinked(js, 0, tokens.Length, Nest([], []))
      decreases |js| - p.pos
    {
      ghost var start := p.pos;
      StepProgress(js, p.pos, tokens.Length, n);
      r, n := TakeCharacter(p, js, tokens, parents, n);
      if r != Success {
        return;
      }
      p.pos := p.pos + 1;
    }
    StepLinkedAtEnd(js, tokens.Length, n);
    SuperIsLastOpen(n);
    var i := p.toknext - 1;
    while i >= 0
      invariant Super(n) <= i < p.toknext
    {
      assert tokens[i] == tokens[..p.toknext][i] == Flat(n)[i];
      if IsOpen(tokens[i]) {
        return Part;
      }
      i := i - 1;
    }
    r := Success;
  }

  lemma StepLinkedAtEnd(js: string, cap: nat, n: Nest)
    ensures RunLinked(js, |js|, cap, n) == Result(if n.stack == [] then Success else Part, |js|, n)
  {
  }
}
