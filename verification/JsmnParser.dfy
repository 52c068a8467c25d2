/** jsmn_parse itself: no stack, a flat array of tokens patched in place, the innermost
    open bracket found by scanning backwards. It refines the machine of module Jsmn. */
module JsmnParser {
  import opened JsmnTree
  import opened Jsmn

  /** jsmn_comment_length, or -1 when the scan would leave the text. */
  method CommentLength(js: string, p: nat) returns (len: int)
    requires p <= |js|
    ensures len == -1 <==> forall i :: p <= i < |js| ==> !EndsComment(js, i)
    ensures len != -1 ==> len >= 1 && EndsComment(js, p + len - 1)
    ensures len != -1 ==> forall i :: p <= i < p + len - 1 ==> !EndsComment(js, i)
    ensures len == if CommentEnd(js, p) == |js| then -1 else CommentEnd(js, p) - p + 1
  {
    CommentEndIsFirst(js, p);
    len := 0;
    while p + len + 1 < |js| && !(js[p + len] == '*' && js[p + len + 1] == '/')
      invariant 0 <= len && p + len <= |js|
      invariant CommentEnd(js, p) == CommentEnd(js, p + len)
    {
      len := len + 1;
    }
    if p + len + 1 >= |js| {
      return -1;
    }
    len := len + 1;
  }

  class Parser {
    var pos: nat
    var toknext: nat
    var toksuper: int

    /** jsmn_init */
    constructor ()
      ensures pos == 0 && toknext == 0 && toksuper == -1
    {
      pos, toknext, toksuper := 0, 0, -1;
    }

    /** The token array holds the flat listing of `n`, and toksuper is its innermost open
        bracket. */
    ghost predicate Represents(tokens: array<Token>, n: Nest)
      reads this, tokens
    {
      && toknext == |Flat(n)| <= tokens.Length
      && tokens[..toknext] == Flat(n)
      && toksuper == Super(n)
    }

    /** jsmn_alloc_token: the index of a cleared token, or -1. */
    method AllocToken(tokens: array<Token>, num: nat) returns (i: int)
      requires num <= tokens.Length
      modifies `toknext, tokens
      ensures i == -1 <==> old(toknext) >= num
      ensures i == -1 ==> toknext == old(toknext) && tokens[..] == old(tokens[..])
      ensures i != -1 ==> i == old(toknext) && toknext == i + 1
                          && tokens[i].start == tokens[i].end == -1 && tokens[i].size == 0
                          && forall k :: 0 <= k < tokens.Length && k != i ==> tokens[k] == old(tokens[k])
    {
      if toknext >= num {
        return -1;
      }
      i := toknext;
      toknext := toknext + 1;
      tokens[i] := tokens[i].(start := -1, end := -1, size := 0);
    }

    /** tokens[toksuper].size++ */
    method BumpSuper(tokens: array<Token>)
      requires -1 <= toksuper < toknext <= tokens.Length
      modifies tokens
      ensures tokens[..toknext] == Bumped(old(tokens[..toknext]), toksuper)
    {
      if toksuper != -1 {
        tokens[toksuper] := tokens[toksuper].(size := tokens[toksuper].size + 1);
      }
    }

    /** jsmn_parse_primitive: leaves pos on the last character. */
    method ParsePrimitive(js: string, tokens: array<Token>, num: nat) returns (r: Outcome)
      requires pos < |js| && !EndsPrimitive(js[pos]) && num <= tokens.Length && toknext <= tokens.Length
      modifies `pos, `toknext, tokens
      ensures var (o, e) := ScanPrimitive(js, old(pos));
              r == (if o != Success then o else if old(toknext) >= num then NoMem else Success)
      ensures r != Success ==> pos == old(pos) && toknext == old(toknext) && tokens[..] == old(tokens[..])
      ensures r == Success ==> pos + 1 == ScanPrimitive(js, old(pos)).1
                               && toknext == old(toknext) + 1 <= tokens.Length
                               && tokens[..toknext] == old(tokens[..toknext]) + [Token(Primitive, old(pos), pos + 1, 0)]
    {
      var start := pos;
      while pos < |js| && !EndsPrimitive(js[pos])
        invariant start <= pos <= |js|
        invariant ScanPrimitive(js, start) == ScanPrimitive(js, pos)
        invariant toknext == old(toknext) && tokens[..] == old(tokens[..])
        decreases |js| - pos
      {
        if js[pos] < ' ' || js[pos] >= 127 as char {
          pos := start;
          return Inval;
        }
        pos := pos + 1;
      }
      var i := AllocToken(tokens, num);
      if i == -1 {
        pos := start;
        return NoMem;
      }
      tokens[i] := Token(Primitive, start, pos, 0);
      assert pos > start;
      pos := pos - 1;
      r := Success;
    }

    /** jsmn_parse_string: leaves pos on the closing quote. */
    method ParseString(js: string, tokens: array<Token>, num: nat, delim: char) returns (r: Outcome)
      requires pos < |js| && num <= tokens.Length && toknext <= tokens.Length
      modifies `pos, `toknext, tokens
      ensures var (o, e) := ScanString(js, old(pos) + 1, delim);
              r == (if o != Success then o else if old(toknext) >= num then NoMem else Success)
      ensures r != Success ==> pos == old(pos) && toknext == old(toknext) && tokens[..] == old(tokens[..])
      ensures r == Success ==> pos == ScanString(js, old(pos) + 1, delim).1
                               && toknext == old(toknext) + 1 <= tokens.Length
                               && tokens[..toknext] == old(tokens[..toknext]) + [Token(Str, old(pos) + 1, pos, 0)]
    {
      var start := pos;
      pos := pos + 1;
      while pos < |js|
        invariant start < pos <= |js|
        invariant ScanString(js, start + 1, delim) == ScanString(js, pos, delim)
        invariant toknext == old(toknext) && tokens[..] == old(tokens[..])
        decreases |js| - pos
      {
        var c := js[pos];
        if c == delim {
          var i := AllocToken(tokens, num);
          if i == -1 {
            pos := start;
            return NoMem;
          }
          tokens[i] := Token(Str, start + 1, pos, 0);
          return Success;
        }
        if c == '\\' {
          pos := pos + 1;
          if pos == |js| || !IsEscape(js[pos]) {
            pos := start;
            return Inval;
          }
        }
        pos := pos + 1;
      }
      pos := start;
      r := Part;
    }

    /** Closing bracket: find the last open token, close it, then find the next one. */
    method CloseBracket(tokens: array<Token>, kind: Kind, ghost n: Nest) returns (r: Outcome)
      requires Represents(tokens, n)
      modifies `toksuper, tokens
      ensures r == if n.stack == [] || n.stack[|n.stack| - 1].kind != kind then Inval else Success
      ensures r == Inval ==> Represents(tokens, n)
      ensures r == Success ==> Represents(tokens, Pop(n, pos + 1))
    {
      hide Flat, Pop;
      SuperIsLastOpen(n);
      var i := toknext - 1;
      while i >= 0 && !IsOpen(tokens[i])
        invariant Super(n) <= i < toknext
      {
        assert tokens[i] == tokens[..toknext][i] == Flat(n)[i];
        i := i - 1;
      }
      if i == -1 {
        return Inval;
      }
      assert tokens[i] == tokens[..toknext][i] == Flat(n)[i];
      assert i == Super(n);
      if tokens[i].kind != kind {
        return Inval;
      }
      ghost var m := Pop(n, pos + 1);
      PopFlat(n, pos + 1);
      toksuper := -1;
      tokens[i] := tokens[i].(end := pos + 1);
      assert tokens[..toknext] == Flat(m);
      SuperIsLastOpen(m);
      while i >= 0
        invariant Super(m) <= i < toknext
        invariant toksuper == -1
      {
        assert tokens[i] == tokens[..toknext][i] == Flat(m)[i];
        if IsOpen(tokens[i]) {
          toksuper := i;
          break;
        }
        i := i - 1;
      }
      r := Success;
    }

    /** A new last token becomes a child of the innermost open bracket. */
    method Adopt(tokens: array<Token>, ghost n: Nest, ghost t: Token)
      requires toknext == |Flat(n)| + 1 <= tokens.Length && toksuper == Super(n)
      requires tokens[..toknext] == Flat(n) + [t]
      modifies tokens
      ensures tokens[..toknext] == Bumped(Flat(n), Super(n)) + [t]
    {
      hide Flat;
      BumpSuper(tokens);
    }

    /** '@' */
    method TakeChildren(tokens: array<Token>, num: nat, ghost n: Nest) returns (r: Outcome)
      requires Represents(tokens, n) && num <= tokens.Length
      modifies `toknext, tokens
      ensures r == if |Flat(n)| >= num then NoMem else Success
      ensures r != Success ==> Represents(tokens, n)
      ensures r == Success ==> Represents(tokens, Attach(n, Leaf(Children, pos, pos)))
    {
      hide Flat, Attach;
      var i := AllocToken(tokens, num);
      if i == -1 {
        return NoMem;
      }
      tokens[i] := tokens[i].(kind := Children, start := pos, end := pos);
      AttachLeaf(n, Children, pos, pos);
      assert tokens[..toknext] == Flat(n) + [Token(Children, pos, pos, 0)];
      Adopt(tokens, n, Token(Children, pos, pos, 0));
      r := Success;
    }

    /** '{' or '[' */
    method TakeOpening(tokens: array<Token>, num: nat, kind: Kind, ghost n: Nest) returns (r: Outcome)
      requires Represents(tokens, n) && num <= tokens.Length
      modifies `toknext, `toksuper, tokens
      ensures r == if |Flat(n)| >= num then NoMem else Success
      ensures r != Success ==> Represents(tokens, n)
      ensures r == Success ==> Represents(tokens, Push(n, kind, pos))
    {
      hide Flat, Push;
      var i := AllocToken(tokens, num);
      if i == -1 {
        return NoMem;
      }
      BumpSuper(tokens);
      tokens[i] := tokens[i].(kind := kind, start := pos);
      PushFlat(n, kind, pos);
      assert tokens[..toknext] == Bumped(Flat(n), Super(n)) + [Token(kind, pos, -1, 0)];
      toksuper := toknext - 1;
      r := Success;
    }

    /** A quoted string. */
    method TakeString(js: string, tokens: array<Token>, num: nat, delim: char, ghost n: Nest) returns (r: Outcome)
      requires Represents(tokens, n) && num <= tokens.Length && pos < |js|
      modifies `pos, `toknext, tokens
      ensures var (o, e) := ScanString(js, old(pos) + 1, delim);
              && r == (if o != Success then o else if |Flat(n)| >= num then NoMem else Success)
              && (r == Success ==> pos == e && Represents(tokens, Attach(n, Leaf(Str, old(pos) + 1, e))))
      ensures r != Success ==> pos == old(pos) && Represents(tokens, n)
    {
      hide Flat, Attach;
      ghost var start := pos;
      r := ParseString(js, tokens, num, delim);
      if r == Success {
        AttachLeaf(n, Str, start + 1, pos);
        Adopt(tokens, n, Token(Str, start + 1, pos, 0));
      } else {
        assert tokens[..toknext] == old(tokens[..])[..toknext];
      }
    }

    /** Anything else. */
    method TakePrimitive(js: string, tokens: array<Token>, num: nat, ghost n: Nest) returns (r: Outcome)
      requires Represents(tokens, n) && num <= tokens.Length && pos < |js| && !EndsPrimitive(js[pos])
      modifies `pos, `toknext, tokens
      ensures var (o, e) := ScanPrimitive(js, old(pos));
              && r == (if o != Success then o else if |Flat(n)| >= num then NoMem else Success)
              && (r == Success ==> pos + 1 == e && Represents(tokens, Attach(n, Leaf(Primitive, old(pos), e))))
      ensures r != Success ==> pos == old(pos) && Represents(tokens, n)
    {
      hide Flat, Attach;
      ghost var start := pos;
      r := ParsePrimitive(js, tokens, num);
      if r == Success {
        AttachLeaf(n, Primitive, start, pos + 1);
        Adopt(tokens, n, Token(Primitive, start, pos + 1, 0));
      } else {
        assert tokens[..toknext] == old(tokens[..])[..toknext];
      }
    }

    /** Act on the character at pos, leaving pos on the last character used. */
    method TakeCharacter(js: string, tokens: array<Token>, num: nat, ghost n: Nest) returns (r: Outcome, ghost m: Nest)
      requires Represents(tokens, n) && num <= tokens.Length && pos < |js|
      modifies this, tokens
      ensures var l := Lex(js, old(pos));
              match Step(l, old(pos), num, n)
              case Go(n') => r == Success && m == n' && pos + 1 == l.next
              case Stop(o) => r == o && o != Success && m == n && (o != RunsOff ==> pos == old(pos))
      ensures Represents(tokens, m)
    {
      hide Flat, Attach, Push, Pop, Super;
      var c := js[pos];
      ghost var start := pos;
      m := n;
      r := Success;
      if c == '/' {
        var len := CommentLength(js, pos);
        if len == -1 {
          return RunsOff, n;
        }
        pos := pos + len;
      } else if c == '@' {
        r := TakeChildren(tokens, num, n);
        m := if r == Success then Attach(n, Leaf(Children, start, start)) else n;
      } else if c == '{' || c == '[' {
        var kind := if c == '{' then Object else Array;
        r := TakeOpening(tokens, num, kind, n);
        m := if r == Success then Push(n, kind, start) else n;
      } else if c == '}' || c == ']' {
        r := CloseBracket(tokens, if c == '}' then Object else Array, n);
        m := if r == Success then Pop(n, start + 1) else n;
      } else if c == '\'' || c == '\"' {
        r := TakeString(js, tokens, num, c, n);
        m := if r == Success then Attach(n, Leaf(Str, start + 1, pos)) else n;
      } else if !IsBlank(c) {
        r := TakePrimitive(js, tokens, num, n);
        m := if r == Success then Attach(n, Leaf(Primitive, start, pos + 1)) else n;
      }
    }

    /** jsmn_parse on a freshly initialised parser: same result, same tokens, same
        innermost open bracket as the machine with a stack, at every capacity. */
    method Parse(js: string, tokens: array<Token>, num: nat) returns (r: Outcome)
      requires pos == 0 && toknext == 0 && toksuper == -1
      requires num <= tokens.Length
      modifies this, tokens
      ensures var result := Jsmn.Parse(js, num);
              && r == result.outcome
              && (r != RunsOff ==> pos == result.pos)
              && Represents(tokens, result.nest)
    {
      hide Flat, Super, Step, Lex;
      ghost var n := Nest([], []);
      NothingRead();
      while pos < |js|
        invariant pos <= |js|
        invariant Represents(tokens, n)
        invariant Run(js, pos, num, n) == Jsmn.Parse(js, num)
        decreases |js| - pos
      {
        ghost var start := pos;
        StepProgress(js, pos, num, n);
        r, n := TakeCharacter(js, tokens, num, n);
        if r != Success {
          return;
        }
        pos := pos + 1;
      }
      StepAtEnd(js, num, n);
      SuperIsLastOpen(n);
      var i := toknext - 1;
      while i >= 0
        invariant Super(n) <= i < toknext
      {
        assert tokens[i] == tokens[..toknext][i] == Flat(n)[i];
        if IsOpen(tokens[i]) {
          return Part;
        }
        i := i - 1;
      }
      r := Success;
    }
  }

  lemma NothingRead()
    ensures Flat(Nest([], [])) == [] && Super(Nest([], [])) == -1
  {
  }

  lemma StepProgress(js: string, pos: nat, num: nat, n: Nest)
    requires pos < |js|
    ensures var l := Lex(js, pos);
            && !l.Finished?
            && (Step(l, pos, num, n).Go? ==> pos < l.next <= |js|)
            && (Step(l, pos, num, n).Stop? ==> Step(l, pos, num, n).outcome != Success)
  {
  }

  lemma StepAtEnd(js: string, num: nat, n: Nest)
    ensures Run(js, |js|, num, n) == Result(if n.stack == [] then Success else Part, |js|, n)
  {
  }
}
