/** The JSDT tokenizer: a reference machine with an explicit stack of open brackets. The
    text ends where the C string's terminator stands, so it contains no NUL. */
module Jsmn {
  import opened JsmnTree

  /** RunsOff: an unterminated comment, which the source scans past the terminator. */
  datatype Outcome = Success | NoMem | Inval | Part | RunsOff

  // ----- Lexemes

  datatype Lexeme =
    | Finished
    | Skip(next: nat)
    | Atom(kind: Kind, start: nat, end: nat, next: nat)
    | Opening(kind: Kind, next: nat)
    | Closing(kind: Kind, next: nat)
    | Bad(error: Outcome)

  predicate IsBlank(c: char) {
    c == '\t' || c == '\r' || c == '\n' || c == ':' || c == ',' || c == ' '
  }

  predicate EndsPrimitive(c: char) {
    IsBlank(c) || c == ']' || c == '}'
  }

  predicate IsEscape(c: char) {
    c == '\"' || c == '\'' || c == '/' || c == '\\' || c == 'b' || c == 'f' || c == 'r' || c == 'n' || c == 't' ||
    c == 'u'
  }

  /** The two characters that end a comment stand at `i`. */
  predicate EndsComment(js: string, i: nat) {
    i + 1 < |js| && js[i] == '*' && js[i + 1] == '/'
  }

  /** First place from `k` on where a comment ends, or the length of the text. */
  function CommentEnd(js: string, k: nat): (e: nat)
    requires k <= |js|
    ensures k <= e <= |js|
    ensures e < |js| ==> EndsComment(js, e)
    decreases |js| - k
  {
    if k + 1 >= |js| then |js|
    else if js[k] == '*' && js[k + 1] == '/' then k
    else CommentEnd(js, k + 1)
  }

  /** There is no earlier end, and none at all exactly when the scan reaches the end of the
      text. */
  lemma {:induction false} CommentEndIsFirst(js: string, k: nat)
    requires k <= |js|
    ensures forall i :: k <= i < CommentEnd(js, k) ==> !EndsComment(js, i)
    ensures CommentEnd(js, k) == |js| <==> forall i :: k <= i < |js| ==> !EndsComment(js, i)
    decreases |js| - k
  {
    if k + 1 < |js| && !EndsComment(js, k) {
      CommentEndIsFirst(js, k + 1);
    }
  }

  /** The end of a primitive: the next delimiter. Control and non-ASCII characters are
      not allowed before it. */
  function ScanPrimitive(js: string, k: nat): (r: (Outcome, nat))
    requires k <= |js|
    ensures r.0 == Success || r.0 == Inval
    ensures k <= r.1 <= |js|
    decreases |js| - k
  {
    if k == |js| || EndsPrimitive(js[k]) then (Success, k)
    else if js[k] < ' ' || js[k] >= 127 as char then (Inval, k)
    else ScanPrimitive(js, k + 1)
  }

  /** The closing quote of a string whose contents go on at `k`. */
  function ScanString(js: string, k: nat, delim: char): (r: (Outcome, nat))
    requires k <= |js|
    ensures r.0 == Success || r.0 == Inval || r.0 == Part
    ensures r.0 == Success ==> k <= r.1 < |js|
    decreases |js| - k
  {
    if k == |js| then (Part, k)
    else if js[k] == delim then (Success, k)
    else if js[k] == '\\' then
      if k + 1 < |js| && IsEscape(js[k + 1]) then ScanString(js, k + 2, delim) else (Inval, k)
    else ScanString(js, k + 1, delim)
  }

  function Lex(js: string, pos: nat): (l: Lexeme)
    requires pos <= |js|
    ensures l.Finished? <==> pos == |js|
    ensures (l.Skip? || l.Atom? || l.Opening? || l.Closing?) ==> pos < l.next <= |js|
    ensures l.Atom? ==> pos <= l.start <= l.end <= l.next && l.start < l.next
    ensures l.Opening? || l.Closing? ==> l.next == pos + 1 && (l.kind == Object || l.kind == Array)
    ensures l.Atom? ==> l.kind != Object && l.kind != Array
    ensures l.Bad? ==> l.error != Success && l.error != NoMem
  {
    if pos == |js| then Finished
    else
      var c := js[pos];
      if c == '/' then
        var e := CommentEnd(js, pos);
        if e == |js| then Bad(RunsOff) else Skip(e + 2)
      else if c == '@' then Atom(Children, pos, pos, pos + 1)
      else if c == '{' then Opening(Object, pos + 1)
      else if c == '[' then Opening(Array, pos + 1)
      else if c == '}' then Closing(Object, pos + 1)
      else if c == ']' then Closing(Array, pos + 1)
      else if c == '\'' || c == '\"' then
        var (r, e) := ScanString(js, pos + 1, c);
        if r == Success then Atom(Str, pos + 1, e, e + 1) else Bad(r)
      else if IsBlank(c) then Skip(pos + 1)
      else
        var (r, e) := ScanPrimitive(js, pos);
        if r == Success then Atom(Primitive, pos, e, e) else Bad(r)
  }

  // ----- The machine

  /** One lexeme's effect, with room for `cap` tokens: go on, or stop. */
  datatype Next = Stop(outcome: Outcome) | Go(nest: Nest)

  function Step(l: Lexeme, pos: nat, cap: nat, n: Nest): Next {
    match l
    case Finished => Stop(if n.stack == [] then Success else Part)
    case Skip(_) => Go(n)
    case Atom(k, a, e, _) => if |Flat(n)| >= cap then Stop(NoMem) else Go(Attach(n, Leaf(k, a, e)))
    case Opening(k, _) => if |Flat(n)| >= cap then Stop(NoMem) else Go(Push(n, k, pos))
    case Closing(k, _) =>
      if n.stack == [] || n.stack[|n.stack| - 1].kind != k then Stop(Inval) else Go(Pop(n, pos + 1))
    case Bad(error) => Stop(error)
  }

  /** The result, the position at which the machine stops, and the brackets and trees
      read until then. */
  datatype Result = Result(outcome: Outcome, pos: nat, nest: Nest)

  function Run(js: string, pos: nat, cap: nat, n: Nest): Result
    requires pos <= |js|
    decreases |js| - pos
  {
    var l := Lex(js, pos);
    match Step(l, pos, cap, n)
    case Stop(o) => Result(o, pos, n)
    case Go(m) => Run(js, l.next, cap, m)
  }

  function Parse(js: string, cap: nat): Result {
    Run(js, 0, cap, Nest([], []))
  }

  // ----- Comments without end

  /** The scan leaves the text exactly at a comment that nothing ends. */
  lemma {:induction false} RunsOffExactly(js: string, pos: nat, cap: nat, n: Nest)
    requires pos <= |js|
    ensures var r := Run(js, pos, cap, n);
            r.pos <= |js| &&
            (r.outcome == RunsOff <==>
             r.pos < |js| && js[r.pos] == '/' && forall i :: r.pos <= i < |js| ==> !EndsComment(js, i))
    decreases |js| - pos
  {
    hide CommentEnd, ScanPrimitive, ScanString, Flat, Attach, Push, Pop;
    var l := Lex(js, pos);
    match Step(l, pos, cap, n)
    case Go(m) => RunsOffExactly(js, l.next, cap, m);
    case Stop(o) =>
      LexRunsOff(js, pos);
  }

  lemma LexRunsOff(js: string, pos: nat)
    requires pos <= |js|
    ensures Lex(js, pos) == Bad(RunsOff) <==>
            pos < |js| && js[pos] == '/' && forall i :: pos <= i < |js| ==> !EndsComment(js, i)
  {
    hide ScanPrimitive, ScanString, CommentEnd;
    if pos < |js| {
      CommentEndIsFirst(js, pos);
    }
  }

  /** The shortest such text. */
  lemma SlashRunsOff(cap: nat)
    ensures Parse("/", cap).outcome == RunsOff
  {
    RunsOffExactly("/", 0, cap, Nest([], []));
    assert Lex("/", 0) == Bad(RunsOff);
  }

  // ----- The trees are well nested

  /** The trees lie one after another in `lo .. hi`, children inside their brackets, and
      every tree starts after the one before it. Objects and arrays have children. */
  ghost predicate Nested(ts: seq<Tree>, lo: nat, hi: nat)
    decreases ts
  {
    if ts == [] then lo <= hi
    else
      var t := ts[0];
      && lo <= t.start <= t.end
      && (t.Node? <==> t.kind == Object || t.kind == Array)
      && (t.Node? ==> t.start < t.end && Nested(t.kids, t.start + 1, t.end - 1))
      && Nested(ts[1..], After(t), hi)
  }

  /** Where the next sibling may start. */
  function After(t: Tree): nat {
    if t.end > t.start then t.end else t.start + 1
  }

  lemma {:induction false} NestedSnoc(ts: seq<Tree>, t: Tree, lo: nat, mid: nat, hi: nat)
    requires Nested(ts, lo, mid)
    requires mid <= t.start && Nested([t], t.start, hi)
    ensures Nested(ts + [t], lo, hi)
    decreases |ts|
  {
    if ts == [] {
      assert ts + [t] == [t];
      assert [t][1..] == [];
    } else {
      assert (ts + [t])[1..] == ts[1..] + [t];
      NestedSnoc(ts[1..], t, After(ts[0]), mid, hi);
    }
  }

  lemma {:induction false} NestedRange(ts: seq<Tree>, lo: nat, hi: nat)
    requires Nested(ts, lo, hi)
    ensures lo <= hi
    decreases |ts|
  {
    if ts != [] {
      NestedRange(ts[1..], After(ts[0]), hi);
    }
  }

  lemma {:induction false} NestedGrow(ts: seq<Tree>, lo: nat, hi: nat, hi': nat)
    requires Nested(ts, lo, hi) && hi <= hi'
    ensures Nested(ts, lo, hi')
    decreases |ts|
  {
    if ts != [] {
      NestedGrow(ts[1..], After(ts[0]), hi, hi');
    }
  }

  /** The same for the brackets still open at position `pos`. */
  ghost predicate Open(top: seq<Tree>, stack: seq<Frame>, pos: nat) {
    if stack == [] then Nested(top, 0, pos)
    else
      var f := stack[|stack| - 1];
      && (f.kind == Object || f.kind == Array)
      && Nested(f.kids, f.start + 1, pos)
      && Open(top, stack[..|stack| - 1], f.start)
  }

  lemma OpenGrow(n: Nest, pos: nat, pos': nat)
    requires Open(n.top, n.stack, pos) && pos <= pos'
    ensures Open(n.top, n.stack, pos')
  {
    if n.stack == [] {
      NestedGrow(n.top, 0, pos, pos');
    } else {
      var f := n.stack[|n.stack| - 1];
      NestedGrow(f.kids, f.start + 1, pos, pos');
    }
  }

  lemma OpenAttach(n: Nest, t: Tree, pos: nat, pos': nat)
    requires Open(n.top, n.stack, pos)
    requires pos <= t.start && Nested([t], t.start, pos')
    ensures Open(Attach(n, t).top, Attach(n, t).stack, pos')
  {
    if n.stack == [] {
      NestedSnoc(n.top, t, 0, pos, pos');
    } else {
      var f := n.stack[|n.stack| - 1];
      NestedSnoc(f.kids, t, f.start + 1, pos, pos');
      var m := Attach(n, t);
      assert m.stack[..|m.stack| - 1] == n.stack[..|n.stack| - 1];
    }
  }

  lemma OpenStep(js: string, pos: nat, cap: nat, n: Nest)
    requires pos <= |js| && Open(n.top, n.stack, pos)
    ensures var l := Lex(js, pos);
            Step(l, pos, cap, n).Go? ==> var m := Step(l, pos, cap, n).nest; Open(m.top, m.stack, l.next)
  {
    var l := Lex(js, pos);
    match l
    case Atom(k, a, e, next) =>
      assert [Leaf(k, a, e)][1..] == [];
      OpenAttach(n, Leaf(k, a, e), pos, next);
    case Opening(k, next) =>
      var m := Push(n, k, pos);
      assert m.stack[..|m.stack| - 1] == n.stack;
    case Closing(k, next) =>
      if n.stack != [] {
        var f := n.stack[|n.stack| - 1];
        var t := Node(f.kind, f.start, pos + 1, f.kids);
        assert [t][1..] == [];
        NestedRange(f.kids, f.start + 1, pos);
        OpenAttach(Nest(n.top, n.stack[..|n.stack| - 1]), t, f.start, next);
      }
    case Skip(next) => OpenGrow(n, pos, next);
    case Finished =>
    case Bad(_) =>
  }

  /** Whatever the text, the trees read are well nested up to the stopping point; on
      success no bracket is open and they lie inside the text. */
  lemma {:induction false} RunNested(js: string, pos: nat, cap: nat, n: Nest)
    requires pos <= |js| && Open(n.top, n.stack, pos)
    ensures var r := Run(js, pos, cap, n);
            && r.pos <= |js| && Open(r.nest.top, r.nest.stack, r.pos)
            && (r.outcome == Success ==> r.nest.stack == [] && r.pos == |js|)
    decreases |js| - pos
  {
    hide Lex;
    var l := Lex(js, pos);
    OpenStep(js, pos, cap, n);
    if Step(l, pos, cap, n).Go? {
      RunNested(js, l.next, cap, Step(l, pos, cap, n).nest);
    }
  }

  /** The tokens of a successful parse are the pre-order listing of well nested trees. */
  lemma ParseIsForest(js: string, cap: nat)
    requires Parse(js, cap).outcome == Success
    ensures var n := Parse(js, cap).nest;
            && n.stack == [] && Flat(n) == PreAll(n.top)
            && Nested(n.top, 0, |js|)
  {
    RunNested(js, 0, cap, Nest([], []));
  }

  // ----- The same, said of the token array

  /** Starts strictly increase, and of two tokens the later one lies inside the earlier
      one or behind it. */
  ghost predicate Ordered(s: seq<Token>) {
    forall i, j :: 0 <= i < j < |s| ==>
      s[i].start < s[j].start && (s[j].end <= s[i].end || s[i].end <= s[j].start)
  }

  ghost predicate Within(s: seq<Token>, lo: nat, hi: nat) {
    forall i :: 0 <= i < |s| ==> lo <= s[i].start <= s[i].end <= hi && s[i].start < hi
  }

  lemma OrderedConcat(a: seq<Token>, b: seq<Token>, lo: nat, mid: nat, hi: nat)
    requires Ordered(a) && Ordered(b) && Within(a, lo, mid) && Within(b, mid, hi) && mid <= hi && lo <= mid
    ensures Ordered(a + b) && Within(a + b, lo, hi)
  {
    var s := a + b;
    forall i, j | 0 <= i < j < |s|
      ensures s[i].start < s[j].start && (s[j].end <= s[i].end || s[i].end <= s[j].start)
    {
      if i < |a| <= j {
        assert s[i] == a[i] && s[j] == b[j - |a|];
      } else if j < |a| {
        assert s[i] == a[i] && s[j] == a[j];
      } else {
        assert s[i] == b[i - |a|] && s[j] == b[j - |a|];
      }
    }
  }

  lemma {:induction false} NestedOrdered(ts: seq<Tree>, lo: nat, hi: nat)
    requires Nested(ts, lo, hi)
    ensures Ordered(PreAll(ts)) && Within(PreAll(ts), lo, hi) && lo <= hi
    decreases ts
  {
    if ts != [] {
      var t := ts[0];
      NestedOrdered(ts[1..], After(t), hi);
      if t.Node? {
        NestedOrdered(t.kids, t.start + 1, t.end - 1);
        BracketOrdered(t);
      }
      OrderedConcat(Pre(t), PreAll(ts[1..]), lo, After(t), hi);
    }
  }

  lemma BracketOrdered(t: Tree)
    requires t.Node? && t.start < t.end
    requires Ordered(PreAll(t.kids)) && Within(PreAll(t.kids), t.start + 1, t.end - 1)
    ensures Ordered(Pre(t)) && Within(Pre(t), t.start, t.end)
  {
    var s, k := Pre(t), PreAll(t.kids);
    forall i, j | 0 <= i < j < |s|
      ensures s[i].start < s[j].start && (s[j].end <= s[i].end || s[i].end <= s[j].start)
    {
      assert s[j] == k[j - 1];
      if i > 0 {
        assert s[i] == k[i - 1];
      }
    }
  }

  // ----- Capacity

  lemma AttachSize(n: Nest, t: Tree)
    ensures |Flat(Attach(n, t))| == |Flat(n)| + |Pre(t)|
  {
    if n.stack == [] {
      PreAllSnoc(n.top, t);
    } else {
      var f := n.stack[|n.stack| - 1];
      PreAllSnoc(f.kids, t);
      var m := Attach(n, t);
      assert m.stack[..|m.stack| - 1] == n.stack[..|n.stack| - 1];
    }
  }

  /** A lexeme adds at most one token and never takes one away. */
  lemma StepSize(l: Lexeme, pos: nat, cap: nat, n: Nest)
    requires Step(l, pos, cap, n).Go?
    ensures |Flat(n)| <= |Flat(Step(l, pos, cap, n).nest)| <= |Flat(n)| + 1
  {
    match l
    case Atom(k, a, e, _) => AttachSize(n, Leaf(k, a, e));
    case Opening(k, _) => PushFlat(n, k, pos);
    case Closing(k, _) => PopFlat(n, pos + 1);
    case Skip(_) =>
  }

  /** No more tokens than characters. */
  lemma {:induction false} RunSize(js: string, pos: nat, cap: nat, n: Nest)
    requires pos <= |js| && |Flat(n)| <= pos
    ensures |Flat(Run(js, pos, cap, n).nest)| <= |js|
    decreases |js| - pos
  {
    hide Lex;
    var l := Lex(js, pos);
    var next := Step(l, pos, cap, n);
    if next.Go? {
      StepSize(l, pos, cap, n);
      RunSize(js, l.next, cap, next.nest);
    }
  }

  /** With at least as many tokens as characters memory never runs out. */
  lemma {:induction false} EnoughRoom(js: string, pos: nat, cap: nat, n: Nest)
    requires pos <= |js| <= cap && |Flat(n)| <= pos
    ensures Run(js, pos, cap, n).outcome != NoMem
    decreases |js| - pos
  {
    hide Flat;
    var l := Lex(js, pos);
    var next := Step(l, pos, cap, n);
    if next.Go? {
      StepSize(l, pos, cap, n);
      EnoughRoom(js, l.next, cap, next.nest);
    }
  }

  /** A run that does not run out of tokens is the same at every larger capacity. */
  lemma {:induction false} CapacityIndependent(js: string, pos: nat, cap: nat, cap': nat, n: Nest)
    requires pos <= |js| && cap <= cap' && Run(js, pos, cap, n).outcome != NoMem
    ensures Run(js, pos, cap', n) == Run(js, pos, cap, n)
    decreases |js| - pos
  {
    hide Lex, Flat;
    var l := Lex(js, pos);
    var next := Step(l, pos, cap, n);
    if next.Go? {
      CapacityIndependent(js, l.next, cap, cap', next.nest);
    }
  }

  /** The tokens never exceed the capacity. */
  lemma {:induction false} RunWithin(js: string, pos: nat, cap: nat, n: Nest)
    requires pos <= |js| && |Flat(n)| <= cap
    ensures |Flat(Run(js, pos, cap, n).nest)| <= cap
    decreases |js| - pos
  {
    hide Lex, Flat;
    var l := Lex(js, pos);
    var next := Step(l, pos, cap, n);
    if next.Go? {
      StepSize(l, pos, cap, n);
      if l.Closing? {
        PopFlat(n, pos + 1);
      }
      RunWithin(js, l.next, cap, next.nest);
    }
  }
}
