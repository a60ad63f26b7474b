/** Command parsing of the user library: strncpy and strtok with its static cursor
    (programs/kuzne_system_library/src/libc/memory.c) and kuzne_parse_command
    (programs/kuzne_system_library/src/syscalls/syscalls.c). */
module Tokenizer {
  import opened CStrings

  const COMMAND_SIZE := 1025 // sizeof(scommand)
  const ARGUMENT_SIZE := 512 // sizeof(argument)

  // ------------------------------------------------------------ tokens of a string

  /** The first position from p on that does not hold, or that holds, a delimiter. */
  function SkipOver(s: string, d: string, p: nat): (q: nat)
    requires p <= |s|
    ensures p <= q <= |s| && (forall k :: p <= k < q ==> s[k] in d) && (q < |s| ==> s[q] !in d)
    decreases |s| - p
  {
    if p < |s| && s[p] in d then SkipOver(s, d, p + 1) else p
  }

  function SkipTo(s: string, d: string, p: nat): (q: nat)
    requires p <= |s|
    ensures p <= q <= |s| && (forall k :: p <= k < q ==> s[k] !in d) && (q < |s| ==> s[q] in d)
    decreases |s| - p
  {
    if p < |s| && s[p] !in d then SkipTo(s, d, p + 1) else p
  }

  /** Where strtok resumes after a token that ends at q. */
  function Resume(s: string, q: nat): (r: nat)
    requires q <= |s|
    ensures q <= r <= |s|
  {
    if q < |s| then q + 1 else q
  }

  /** The tokens from position p on, as pairs of start and end. */
  function Spans(s: string, d: string, p: nat): (spans: seq<(nat, nat)>)
    requires p <= |s|
    ensures forall i :: 0 <= i < |spans| ==> p <= spans[i].0 < spans[i].1 <= |s|
    decreases |s| - p
  {
    var a := SkipOver(s, d, p);
    if a == |s| then []
    else
      var q := SkipTo(s, d, a);
      [(a, q)] + Spans(s, d, Resume(s, q))
  }

  function Slices(s: string, spans: seq<(nat, nat)>): (tokens: seq<string>)
    requires forall i :: 0 <= i < |spans| ==> spans[i].0 < spans[i].1 <= |s|
    ensures |tokens| == |spans|
  {
    if spans == [] then [] else [s[spans[0].0..spans[0].1]] + Slices(s, spans[1..])
  }

  function Tokens(s: string, d: string): seq<string> {
    Slices(s, Spans(s, d, 0))
  }

  /** s[a..q] is a non-empty delimiter-free substring that cannot be extended. */
  ghost predicate Maximal(s: string, d: string, a: nat, q: nat) {
    && a < q <= |s|
    && (forall k :: a <= k < q ==> s[k] !in d)
    && (a == 0 || s[a - 1] in d)
    && (q == |s| || s[q] in d)
  }

  /** The tokens are exactly the maximal delimiter-free substrings, from left to right. */
  lemma {:induction false} SpansAreMaximal(s: string, d: string, p: nat, a: nat, q: nat)
    requires p <= |s| && (p == 0 || p == |s| || s[p - 1] in d)
    ensures (a, q) in Spans(s, d, p) <==> p <= a && Maximal(s, d, a, q)
    decreases |s| - p
  {
    var a0 := SkipOver(s, d, p);
    if a0 < |s| {
      var q0 := SkipTo(s, d, a0);
      var p' := Resume(s, q0);
      SpansAreMaximal(s, d, p', a, q);
      if p <= a < a0 && a < |s| {
        assert s[a] in d;
      }
      if a0 < a < q0 {
        assert s[a - 1] !in d;
      }
      if a == a0 && Maximal(s, d, a, q) {
        SameEnd(s, d, a, q, q0);
      }
    } else if p <= a < |s| {
      assert s[a] in d;
    }
  }

  lemma SameEnd(s: string, d: string, a: nat, q: nat, q0: nat)
    requires Maximal(s, d, a, q) && a < q0 <= |s|
    requires (forall k :: a <= k < q0 ==> s[k] !in d) && (q0 == |s| || s[q0] in d)
    ensures q == q0
  {
  }

  lemma {:induction false} SpansInOrder(s: string, d: string, p: nat, i: nat, j: nat)
    requires p <= |s| && i < j < |Spans(s, d, p)|
    ensures Spans(s, d, p)[i].1 < Spans(s, d, p)[j].0
    decreases |s| - p
  {
    var a := SkipOver(s, d, p);
    var q := SkipTo(s, d, a);
    var p' := Resume(s, q);
    if i > 0 {
      SpansInOrder(s, d, p', i - 1, j - 1);
    } else {
      assert Spans(s, d, p)[j] == Spans(s, d, p')[j - 1];
      assert q < |s|;
    }
  }

  // ------------------------------------------------------------ code

  datatype Ptr = Null | At(buf: array<char>, index: nat)

  class CommandArgument {
    const argument: array<char>
    var next: CommandArgument?

    constructor ()
      ensures fresh(argument) && argument.Length == ARGUMENT_SIZE && next == null
    {
      argument := new char[ARGUMENT_SIZE];
      next := null;
    }
  }

  /** strncpy: at most count - 1 characters, and always a NUL. */
  method StrNCpy(dest: array<char>, src: array<char>, from: nat, count: nat)
    requires dest != src && 0 < count <= dest.Length && Terminated(src[..], from)
    modifies dest
    ensures Text(dest[..], 0) == Cut(Text(src[..], from), count - 1) && Terminated(dest[..], 0)
  {
    hide Text;
    ghost var b, s := src[..], Text(src[..], from);
    var i := 0;
    while i < count - 1
      invariant 0 <= i <= count - 1 && i <= |s| && dest[..i] == s[..i] && src[..] == b
    {
      AtEnd(b, from, i);
      if src[from + i] == '\0' {
        break;
      }
      dest[i] := src[from + i];
      i := i + 1;
    }
    dest[i] := '\0';
    TextIs(dest[..], 0, s[..i]);
    assert s[..i] == Cut(s, count - 1);
  }

  /** What strtok does with the text at position from of buf, which held was before. */
  ghost predicate TokenTaken(was: seq<char>, from: nat, d: string, buf: array<char>,
      after: seq<char>, token: Ptr, sp: Ptr)
    requires Terminated(was, from)
  {
    var text := Text(was, from);
    var a := SkipOver(text, d, 0);
    if a == |text| then token == Null && sp == Null && after == was
    else
      var q := SkipTo(text, d, a);
      token == At(buf, from + a) && sp == At(buf, from + Resume(text, q)) && after == was[from + q := '\0']
  }

  lemma Taken(was: seq<char>, from: nat, d: string, buf: array<char>, after: seq<char>, p: nat, e: nat, next: nat)
    requires Terminated(was, from)
    requires p == from + SkipOver(Text(was, from), d, 0) && p - from < |Text(was, from)|
    requires e == from + SkipTo(Text(was, from), d, p - from)
    requires after == was[e := '\0'] && next == if was[e] == '\0' then e else e + 1
    ensures TokenTaken(was, from, d, buf, after, At(buf, p), At(buf, next))
  {
  }

  lemma NoneTaken(was: seq<char>, from: nat, d: string, buf: array<char>)
    requires Terminated(was, from) && SkipOver(Text(was, from), d, 0) == |Text(was, from)|
    ensures TokenTaken(was, from, d, buf, was, Null, Null)
  {
  }

  // ------------------------------------------------------------ runs of strtok on one string

  lemma SuffixText(b0: seq<char>, b: seq<char>, r: nat)
    requires Terminated(b0, 0) && r <= |Text(b0, 0)| && |b| == |b0| && b[r..] == b0[r..]
    ensures Text(b, r) == Text(b0, 0)[r..] && Terminated(b, r)
  {
  }

  lemma {:induction false} SkipOverShift(s: string, d: string, r: nat, k: nat)
    requires r + k <= |s|
    ensures SkipOver(s[r..], d, k) + r == SkipOver(s, d, r + k)
    decreases |s| - k
  {
  }

  lemma {:induction false} SkipToShift(s: string, d: string, r: nat, k: nat)
    requires r + k <= |s|
    ensures SkipTo(s[r..], d, k) + r == SkipTo(s, d, r + k)
    decreases |s| - k
  {
  }

  lemma {:induction false} SliceAt(s: string, spans: seq<(nat, nat)>, i: nat)
    requires forall k :: 0 <= k < |spans| ==> spans[k].0 < spans[k].1 <= |s|
    requires i < |spans|
    ensures Slices(s, spans)[i] == s[spans[i].0..spans[i].1]
    decreases i
  {
    if i > 0 {
      SliceAt(s, spans[1..], i - 1);
    }
  }

  /** b0 held the string s; of b at least what lies behind position r is as in b0, and what
      follows the first n tokens is what follows position r. */
  ghost predicate Pending(b0: seq<char>, b: seq<char>, d: string, n: nat, r: nat) {
    && Terminated(b0, 0) && r <= |Text(b0, 0)| && |b| == |b0| && b[r..] == b0[r..]
    && n <= |Spans(Text(b0, 0), d, 0)| && Spans(Text(b0, 0), d, 0)[n..] == Spans(Text(b0, 0), d, r)
  }

  /** After the call that asks for token number n: it is returned and the cursor stands at
      the rest, or there is none and the cursor is empty. */
  ghost predicate Returned(b0: seq<char>, buf: array<char>, b: seq<char>, d: string, n: nat, token: Ptr, sp: Ptr) {
    && Terminated(b0, 0)
    && var s := Text(b0, 0);
    if token == Null then sp == Null && n == |Tokens(s, d)|
    else
      && n < |Tokens(s, d)| && token.buf == buf && Terminated(b, token.index) && Text(b, token.index) == Tokens(s, d)[n]
      && sp.At? && sp.buf == buf && Pending(b0, b, d, n + 1, sp.index)
  }

  lemma NextReturned(b0: seq<char>, was: seq<char>, d: string, n: nat, r: nat, buf: array<char>, b: seq<char>,
      token: Ptr, sp: Ptr)
    requires Pending(b0, was, d, n, r) && Terminated(was, r) && TokenTaken(was, r, d, buf, b, token, sp)
    ensures Returned(b0, buf, b, d, n, token, sp)
  {
    hide Text, SkipOver, SkipTo, Spans, Slices, Resume, Pending, Returned;
    var s := Text(b0, 0);
    PendingText(b0, was, d, n, r);
    SkipOverShift(s, d, r, 0);
    var a := SkipOver(s, d, r);
    if a < |s| {
      SkipToShift(s, d, r, a - r);
      var q := SkipTo(s, d, a);
      ResumeShift(s, r, q);
      SomeReturned(b0, was, d, n, r, buf, a, q);
    } else {
      NoneReturned(b0, was, d, n, r, buf, b);
    }
  }

  lemma NothingTaken(b0: seq<char>)
    requires Terminated(b0, 0)
    ensures Pending(b0, b0, " ", 0, 0)
  {
  }

  lemma PendingText(b0: seq<char>, was: seq<char>, d: string, n: nat, r: nat)
    requires Pending(b0, was, d, n, r)
    ensures r <= |Text(b0, 0)| && Text(was, r) == Text(b0, 0)[r..] && Terminated(was, r)
  {
    SuffixText(b0, was, r);
  }

  lemma NoneReturned(b0: seq<char>, was: seq<char>, d: string, n: nat, r: nat, buf: array<char>, b: seq<char>)
    requires Pending(b0, was, d, n, r) && SkipOver(Text(b0, 0), d, r) == |Text(b0, 0)|
    ensures Returned(b0, buf, b, d, n, Null, Null)
  {
  }

  lemma SomeReturned(b0: seq<char>, was: seq<char>, d: string, n: nat, r: nat, buf: array<char>, a: nat, q: nat)
    requires Pending(b0, was, d, n, r) && a == SkipOver(Text(b0, 0), d, r) < |Text(b0, 0)|
    requires q == SkipTo(Text(b0, 0), d, a)
    ensures Returned(b0, buf, was[q := '\0'], d, n, At(buf, a), At(buf, Resume(Text(b0, 0), q)))
  {
    hide Text, SkipOver, SkipTo, Spans, Slices, Resume;
    var s := Text(b0, 0);
    SpansStep(s, d, r);
    NthSpan(Spans(s, d, 0), n, (a, q), Spans(s, d, Resume(s, q)));
    SliceAt(s, Spans(s, d, 0), n);
    TokenText(b0, was, r, a, q);
  }

  lemma ResumeShift(s: string, r: nat, q: nat)
    requires r <= q <= |s|
    ensures r + Resume(s[r..], q - r) == Resume(s, q)
  {
  }

  lemma SpansStep(s: string, d: string, p: nat)
    requires p <= |s|
    ensures var a := SkipOver(s, d, p);
            Spans(s, d, p) == if a == |s| then [] else [(a, SkipTo(s, d, a))] + Spans(s, d, Resume(s, SkipTo(s, d, a)))
  {
  }

  lemma NthSpan<T>(all: seq<T>, n: nat, x: T, rest: seq<T>)
    requires n <= |all| && all[n..] == [x] + rest
    ensures n < |all| && all[n] == x && all[n + 1..] == rest
  {
  }

  lemma TokenText(b0: seq<char>, was: seq<char>, r: nat, a: nat, q: nat)
    requires Terminated(b0, 0) && |was| == |b0| && r <= a <= q <= |Text(b0, 0)| && was[r..] == b0[r..]
    ensures Text(was[q := '\0'], a) == Text(b0, 0)[a..q] && Terminated(was[q := '\0'], a)
    ensures var e := Resume(Text(b0, 0), q); was[q := '\0'][e..] == b0[e..]
  {
    var s := Text(b0, 0);
    hide Text;
    AtEnd(b0, 0, q);
    SuffixKept(b0, was, r, a, q);
    assert s == b0[..|s|] && s[a..q] == b0[a..q];
    forall k | 0 <= k < q - a ensures s[a..q][k] != '\0' {
      assert s[a..q][k] == s[a + k];
    }
    TextIs(was[q := '\0'], a, s[a..q]);
  }

  lemma SuffixKept(b0: seq<char>, was: seq<char>, r: nat, a: nat, q: nat)
    requires |was| == |b0| && r <= a <= q < |b0| && was[r..] == b0[r..]
    ensures was[q := '\0'][a..q] == b0[a..q] && was[q := '\0'][q + 1..] == b0[q + 1..]
    ensures b0[q] == '\0' ==> was[q := '\0'][q..] == b0[q..]
  {
  }

  /** nodes are distinct and linked in this order. */
  ghost predicate Linked(nodes: seq<CommandArgument>)
    reads nodes
  {
    && (forall i :: 0 <= i < |nodes| ==> nodes[i].next == if i + 1 < |nodes| then nodes[i + 1] else null)
    && forall i, j :: 0 <= i < j < |nodes| ==> nodes[i] != nodes[j]
  }

  /** The nodes hold the first tokens, each cut to what an argument can hold. */
  ghost predicate Arguments(nodes: seq<CommandArgument>, tokens: seq<string>)
    reads set i | 0 <= i < |nodes| :: nodes[i].argument
  {
    && |nodes| <= |tokens|
    && forall i :: 0 <= i < |nodes| ==> Text(nodes[i].argument[..], 0) == Cut(tokens[i], ARGUMENT_SIZE - 1)
  }

  lemma NoArguments()
    ensures Linked([]) && forall tokens :: Arguments([], tokens)
  {
  }

  lemma FirstArgument(node: CommandArgument, tokens: seq<string>)
    requires tokens != [] && node.next == null && Text(node.argument[..], 0) == Cut(tokens[0], ARGUMENT_SIZE - 1)
    ensures Linked([node]) && Arguments([node], tokens)
  {
  }

  lemma OneMoreArgument(nodes: seq<CommandArgument>, node: CommandArgument, tokens: seq<string>)
    requires Arguments(nodes, tokens) && |nodes| < |tokens|
    requires Text(node.argument[..], 0) == Cut(tokens[|nodes|], ARGUMENT_SIZE - 1)
    ensures Arguments(nodes + [node], tokens)
  {
  }

  class Libc {
    var sp: Ptr // static in strtok

    constructor ()
      ensures sp == Null
    {
      sp := Null;
    }

    /** The string that strtok works on: the cursor if it is set, else the argument. */
    function Subject(str: Ptr): Ptr
      reads this
    {
      if sp.At? then sp else str
    }

    /** strtok: the next token of the subject; its end, if it is not the end of the string,
        becomes a NUL, and the cursor moves behind it. */
    method StrTok(str: Ptr, delimiters: string) returns (token: Ptr)
      requires '\0' !in delimiters
      requires Subject(str).At? ==> Terminated(Subject(str).buf[..], Subject(str).index)
      modifies this, if Subject(str).At? then {Subject(str).buf} else {}
      ensures old(Subject(str)) == Null ==> sp == Null && token == Null
      ensures old(Subject(str)).At? ==>
                var s := old(Subject(str));
                TokenTaken(old(s.buf[..]), s.index, delimiters, s.buf, s.buf[..], token, sp)
    {
      if str == Null && sp == Null {
        return Null;
      }
      if str.At? && sp == Null {
        sp := str;
      }
      token, sp := NextToken(sp.buf, sp.index, delimiters);
    }

    /** The loops of strtok, and the cursor it leaves. */
    method NextToken(buf: array<char>, from: nat, delimiters: string) returns (token: Ptr, cursor: Ptr)
      requires '\0' !in delimiters && Terminated(buf[..], from)
      modifies buf
      ensures TokenTaken(old(buf[..]), from, delimiters, buf, buf[..], token, cursor)
    {
      hide Text, SkipOver, SkipTo, Terminated, TokenTaken;
      ghost var was := buf[..];
      var p := SkipDelimiters(buf, from, delimiters);
      AtEnd(was, from, p - from);
      if buf[p] == '\0' {
        NoneTaken(was, from, delimiters, buf);
        return Null, Null;
      }
      var e := FindEnd(buf, from, p, delimiters);
      AtEnd(was, from, e - from);
      var next := EndToken(buf, e);
      Taken(was, from, delimiters, buf, buf[..], p, e, next);
      return At(buf, p), At(buf, next);
    }

    /** A delimiter behind the token becomes its NUL and is stepped over. */
    method EndToken(buf: array<char>, e: nat) returns (next: nat)
      requires e < buf.Length
      modifies buf
      ensures buf[..] == old(buf[..])[e := '\0']
      ensures next == if old(buf[e]) == '\0' then e else e + 1
    {
      next := e;
      if buf[e] != '\0' {
        buf[e] := '\0';
        next := e + 1;
      }
    }

    /** The first loop of strtok. */
    method SkipDelimiters(buf: array<char>, from: nat, delimiters: string) returns (p: nat)
      requires '\0' !in delimiters && Terminated(buf[..], from)
      ensures p == from + SkipOver(Text(buf[..], from), delimiters, 0)
    {
      ghost var text := Text(buf[..], from);
      p := from;
      while buf[p] in delimiters
        invariant from <= p <= from + |text|
        invariant SkipOver(text, delimiters, 0) == SkipOver(text, delimiters, p - from)
        decreases from + |text| - p
      {
        p := p + 1;
      }
    }

    /** The second loop of strtok, up to the write. */
    method FindEnd(buf: array<char>, ghost from: nat, p: nat, delimiters: string) returns (e: nat)
      requires '\0' !in delimiters && Terminated(buf[..], from) && from <= p <= from + |Text(buf[..], from)|
      ensures e == from + SkipTo(Text(buf[..], from), delimiters, p - from)
    {
      ghost var text := Text(buf[..], from);
      e := p;
      while buf[e] != '\0' && buf[e] !in delimiters
        invariant p <= e <= from + |text|
        invariant SkipTo(text, delimiters, p - from) == SkipTo(text, delimiters, e - from)
        decreases from + |text| - e
      {
        e := e + 1;
      }
    }

    /** The next token of the command, after the first n. */
    method AskToken(str: Ptr, ghost b0: seq<char>, buf: array<char>, ghost n: nat) returns (token: Ptr)
      requires Subject(str).At? && Subject(str).buf == buf && Pending(b0, buf[..], " ", n, Subject(str).index)
      modifies this, buf
      ensures Returned(b0, buf, buf[..], " ", n, token, sp)
    {
      hide TokenTaken, Returned, Text, Spans;
      ghost var was, r := buf[..], Subject(str).index;
      SuffixText(b0, was, r);
      token := StrTok(str, " ");
      NextReturned(b0, was, " ", n, r, buf, buf[..], token, sp);
    }

    method NewArgument(scommand: array<char>, from: nat) returns (node: CommandArgument)
      requires Terminated(scommand[..], from)
      ensures fresh(node) && fresh(node.argument) && node.next == null
      ensures Text(node.argument[..], 0) == Cut(Text(scommand[..], from), ARGUMENT_SIZE - 1)
    {
      hide Text, Terminated, Cut;
      node := new CommandArgument();
      StrNCpy(node.argument, scommand, from, ARGUMENT_SIZE);
    }

    /** One more node behind the last one. */
    method AddArgument(last: CommandArgument, scommand: array<char>,
        from: nat, ghost nodes: seq<CommandArgument>, ghost tokens: seq<string>)
      returns (node: CommandArgument)
      requires nodes != [] && last == nodes[|nodes| - 1] && Linked(nodes) && Arguments(nodes, tokens)
      requires |nodes| < |tokens|
      requires Terminated(scommand[..], from) && Text(scommand[..], from) == tokens[|nodes|]
      modifies last`next
      ensures fresh(node) && fresh(node.argument)
      ensures Linked(nodes + [node]) && Arguments(nodes + [node], tokens)
    {
      hide Text, Terminated, Cut, Arguments;
      node := NewArgument(scommand, from);
      last.next := node;
      OneMoreArgument(nodes, node, tokens);
    }

    /** kuzne_parse_command, when available many calls of malloc succeed. */
    method ParseCommand(command: array<char>, max: int, available: nat)
      returns (root: CommandArgument?, ghost nodes: seq<CommandArgument>)
      requires sp == Null && Terminated(command[..], 0)
      modifies this
      ensures root == (if nodes == [] then null else nodes[0]) && Linked(nodes)
      ensures max >= COMMAND_SIZE ==> nodes == [] && sp == Null
      ensures max < COMMAND_SIZE ==>
                var tokens := Tokens(Cut(Text(old(command[..]), 0), COMMAND_SIZE - 1), " ");
                && |nodes| == (if available < |tokens| then available else |tokens|)
                && Arguments(nodes, tokens)
                && (sp == Null <==> available >= |tokens|)
    {
      hide Text, Tokens, Terminated, Linked, Arguments, Pending, Cut, Spans, Slices, SkipOver, SkipTo, Resume;
      NoArguments();
      nodes, root := [], null;
      if max >= COMMAND_SIZE {
        return;
      }
      var scommand := new char[COMMAND_SIZE];
      StrNCpy(scommand, command, 0, COMMAND_SIZE);
      ghost var b0 := scommand[..];
      ghost var tokens := Tokens(Text(b0, 0), " ");
      NothingTaken(b0);
      var token := AskToken(At(scommand, 0), b0, scommand, 0);
      if token == Null || available == 0 {
        return;
      }
      root := NewArgument(scommand, token.index);
      nodes := [root];
      FirstArgument(root, tokens);
      token := AskToken(Null, b0, scommand, 1);
      nodes := ParseRest(root, token, available - 1, scommand, b0);
    }

    /** The loop of kuzne_parse_command. */
    method ParseRest(root: CommandArgument, first: Ptr, available: nat, scommand: array<char>, ghost b0: seq<char>)
      returns (ghost nodes: seq<CommandArgument>)
      requires Returned(b0, scommand, scommand[..], " ", 1, first, sp) && root.argument != scommand
      requires Linked([root]) && Arguments([root], Tokens(Text(b0, 0), " "))
      modifies this, scommand, root`next
      ensures nodes != [] && nodes[0] == root && Linked(nodes)
      ensures var tokens := Tokens(Text(b0, 0), " ");
              && |nodes| == (if available + 1 < |tokens| then available + 1 else |tokens|)
              && Arguments(nodes, tokens)
              && (sp == Null <==> available + 1 >= |tokens|)
    {
      hide Text, Tokens, Terminated, Linked, Arguments, Pending, Cut, Spans, Slices, SkipOver, SkipTo, Resume;
      ghost var tokens := Tokens(Text(b0, 0), " ");
      nodes := [root];
      var token, current, left := first, root, available;
      while token != Null
        invariant 0 < |nodes| <= |tokens| && left == available + 1 - |nodes| >= 0
        invariant root == nodes[0] && current == nodes[|nodes| - 1] && Linked(nodes)
                  && (current == root || fresh(current))
        invariant forall i :: 0 <= i < |nodes| ==> nodes[i].argument != scommand
        invariant Arguments(nodes, tokens)
        invariant Returned(b0, scommand, scommand[..], " ", |nodes|, token, sp)
        decreases |tokens| - |nodes|
      {
        if left == 0 {
          break;
        }
        left := left - 1;
        var node := AddArgument(current, scommand, token.index, nodes, tokens);
        nodes := nodes + [node];
        current := node;
        token := AskToken(Null, b0, scommand, |nodes|);
      }
    }
  }
}
