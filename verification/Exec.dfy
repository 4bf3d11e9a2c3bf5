/** Splitting a command line into tokens and executing the commands in it.
    Commands act on a world that is left abstract. */
module Exec {
  import opened CLib

  const ENOMEM := -12
  const SHELL_STOP_COMMAND := 1

  /** Where the word that covers position `p` ends. */
  function WordEnd(s: string, p: nat): (e: nat)
    requires p <= |s|
    ensures p <= e <= |s| && (forall k :: p <= k < e ==> !IsSpace(s[k])) && (e < |s| ==> IsSpace(s[e]))
    decreases |s| - p
  {
    if p == |s| || IsSpace(s[p]) then p else WordEnd(s, p + 1)
  }

  /** Where the words from position `p` on start. */
  function Starts(s: string, p: nat): (r: seq<nat>)
    requires p <= |s|
    ensures forall k :: 0 <= k < |r| ==> p <= r[k] < |s| && !IsSpace(s[r[k]])
    decreases |s| - p
  {
    if p == |s| then [] else if IsSpace(s[p]) then Starts(s, p + 1) else [p] + Starts(s, WordEnd(s, p))
  }

  /** The words of a line. */
  function Tokens(s: string): (r: seq<string>)
    ensures |r| == |Starts(s, 0)|
    ensures forall k :: 0 <= k < |r| ==> r[k] == s[Starts(s, 0)[k]..WordEnd(s, Starts(s, 0)[k])]
  {
    var starts := Starts(s, 0);
    seq(|starts|, k requires 0 <= k < |starts| => s[starts[k]..WordEnd(s, starts[k])])
  }

  /** The NUL-terminated string at `p`. */
  function StrAt(b: string, p: nat): string
    requires p <= |b|
    decreases |b| - p
  {
    if p == |b| || b[p] == NUL then [] else [b[p]] + StrAt(b, p + 1)
  }

  /** White space turned into NULs. */
  function Blanked(s: string): (r: string)
    ensures |r| == |s|
  {
    seq(|s|, k requires 0 <= k < |s| => if IsSpace(s[k]) then NUL else s[k])
  }

  /** Once blanked, the string at the start of a word is that word. */
  lemma {:induction false} WordAt(s: string, p: nat)
    requires p <= |s| && NUL !in s
    ensures StrAt(Blanked(s), p) == s[p..WordEnd(s, p)]
    decreases |s| - p
  {
    if p < |s| && !IsSpace(s[p]) {
      WordAt(s, p + 1);
      assert s[p..WordEnd(s, p)] == [s[p]] + s[p + 1..WordEnd(s, p)];
    }
  }

  /** The line `s` with what has been passed of it blanked, if it is to be. */
  ghost predicate Passed(b: string, s: string, p: nat, fill: bool) {
    && |b| == |s|
    && (forall k :: 0 <= k < |b| && k < p ==> b[k] == if fill && IsSpace(s[k]) then NUL else s[k])
    && (forall k :: p <= k < |b| ==> b[k] == s[k])
  }

  method SkipSpace(b: array<char>, from: nat, fill: bool, ghost s: string) returns (p: nat)
    requires from <= b.Length && Passed(b[..], s, from, fill)
    modifies b
    ensures from <= p <= b.Length && Passed(b[..], s, p, fill)
    ensures Starts(s, p) == Starts(s, from) && (p < b.Length ==> !IsSpace(s[p]))
  {
    p := from;
    while p < b.Length && IsSpace(b[p])
      invariant from <= p <= b.Length && Passed(b[..], s, p, fill)
      invariant Starts(s, p) == Starts(s, from)
    {
      if fill { b[p] := NUL; }
      p := p + 1;
    }
  }

  method SkipWord(b: array<char>, from: nat, fill: bool, ghost s: string) returns (p: nat)
    requires from <= b.Length && Passed(b[..], s, from, fill)
    ensures p == WordEnd(s, from) && Passed(b[..], s, p, fill)
  {
    p := from;
    while p < b.Length && !IsSpace(b[p])
      invariant from <= p <= b.Length && Passed(b[..], s, p, fill)
      invariant WordEnd(s, p) == WordEnd(s, from)
    {
      p := p + 1;
    }
  }

  /** Counting and filling go over the line in the same way: the count is right
      either way, and filling leaves each token a string of its own. */
  method SplitCommand(b: array<char>, fill: bool) returns (count: nat, tokens: seq<nat>)
    requires NUL !in b[..]
    modifies b
    ensures count == |Tokens(old(b[..]))|
    ensures fill ==> tokens == Starts(old(b[..]), 0) && b[..] == Blanked(old(b[..]))
    ensures !fill ==> tokens == [] && b[..] == old(b[..])
  {
    hide Passed, Tokens, Blanked, WordEnd, IsSpace, Starts;
    ghost var s := b[..];
    PassedEnds(s, s, fill);
    var p := 0;
    count, tokens := 0, [];
    while true
      invariant p <= b.Length && Passed(b[..], s, p, fill)
      invariant count + |Starts(s, p)| == |Starts(s, 0)|
      invariant if fill then tokens + Starts(s, p) == Starts(s, 0) else tokens == []
      decreases b.Length - p
    {
      p := SkipSpace(b, p, fill, s);
      StartsAt(s, p);
      if p == b.Length { break; }
      ghost var rest := Starts(s, WordEnd(s, p));
      assert tokens + ([p] + rest) == tokens + [p] + rest;
      if fill { tokens := tokens + [p]; }
      count := count + 1;
      p := SkipWord(b, p, fill, s);
    }
    PassedEnds(b[..], s, fill);
  }

  lemma StartsAt(s: string, p: nat)
    requires p <= |s|
    ensures p == |s| ==> Starts(s, p) == []
    ensures p < |s| && !IsSpace(s[p]) ==> Starts(s, p) == [p] + Starts(s, WordEnd(s, p)) && WordEnd(s, p) > p
  {
  }

  lemma PassedEnds(b: string, s: string, fill: bool)
    ensures Passed(s, s, 0, fill)
    ensures Passed(b, s, |b|, fill) ==> b == if fill then Blanked(s) else s
  {
  }

  /** The strings left by filling are the tokens. */
  lemma TokenStrings(s: string, k: nat)
    requires NUL !in s && k < |Tokens(s)|
    ensures StrAt(Blanked(s), Starts(s, 0)[k]) == Tokens(s)[k]
  {
    hide Blanked, StrAt, Starts, WordEnd;
    WordAt(s, Starts(s, 0)[k]);
  }

  /** How a command is followed by the next: by `||`, `&&`, `;` or not at all. */
  datatype Next = OnFailure | OnSuccess | Always | End

  /** What a token means between commands. */
  function Operator(token: string): Option<Next> {
    if token == "||" then Some(OnFailure)
    else if token == "&&" then Some(OnSuccess)
    else if token == ";" then Some(Always)
    else None
  }

  predicate Comment(token: string) { token != [] && token[0] == '#' }

  /** The first token that ends a command. */
  function Argc(tokens: seq<string>): (n: nat)
    ensures n <= |tokens|
  {
    if tokens == [] || Comment(tokens[0]) || Operator(tokens[0]).Some? then 0 else 1 + Argc(tokens[1..])
  }

  function NextOf(tokens: seq<string>): (n: Next)
    ensures n != End ==> Argc(tokens) < |tokens|
  {
    var k := Argc(tokens);
    if k == |tokens| || Comment(tokens[k]) then End
    else match Operator(tokens[k]) case Some(n) => n case None => End
  }

  method CommandTerminator(tokens: seq<string>) returns (argc: nat, next: Next)
    ensures argc == Argc(tokens) && next == NextOf(tokens)
  {
    hide Comment, Operator;
    var i := 0;
    while i < |tokens|
      invariant i <= |tokens| && Argc(tokens) == i + Argc(tokens[i..])
    {
      if Comment(tokens[i]) { break; }
      else if Operator(tokens[i]).Some? { return i, Operator(tokens[i]).value; }
      assert tokens[i..][1..] == tokens[i + 1..];
      i := i + 1;
    }
    return i, End;
  }

  /** The state commands act on, with the shell stop state. */
  datatype World<W> = World(w: W, stop: int)

  type Command<!W(!new)> = (World<W>, seq<string>) -> (World<W>, int)
  type Expander<!W(!new)> = (World<W>, string) -> Option<string>

  /** A command line as a reader sees it: each operator joins all that came before
      it to the next command. */
  datatype Tree = Simple(args: seq<string>) | Join(first: Tree, op: Next, args: seq<string>)

  /** The tree of a token list, up to the first comment. */
  function Parse(tokens: seq<string>): Tree {
    var k := Argc(tokens);
    Extend(Simple(tokens[..k]), NextOf(tokens), if k < |tokens| then tokens[k + 1..] else [])
  }

  function Extend(t: Tree, op: Next, rest: seq<string>): Tree
    decreases |rest|, op != End
  {
    var k := Argc(rest);
    if op == End then t
    else if NextOf(rest) == End then Join(t, op, rest[..k])
    else Extend(Join(t, op, rest[..k]), NextOf(rest), rest[k + 1..])
  }

  /** Whether the next command is wanted after status `rc`. */
  predicate Wanted(op: Next, rc: int) {
    match op
    case OnFailure => rc != 0
    case OnSuccess => rc == 0
    case Always => true
    case End => false
  }

  /** All tokens expanded, if all can be. */
  function Expanded<W(!new)>(w: World<W>, tokens: seq<string>, expand: Expander<W>): Option<seq<string>> {
    if tokens == [] then Some([])
    else match expand(w, tokens[0])
      case None => None
      case Some(t) =>
        match Expanded(w, tokens[1..], expand)
        case None => None
        case Some(rest) => Some([t] + rest)
  }

  /** The state after a command, its status, and whether to go no further. */
  datatype Result<W> = Result(w: World<W>, rc: int, stopped: bool)

  /** shell_stopped(), for a single command. */
  function Checked<W(!new)>(w: World<W>, rc: int): Result<W> {
    Result(if w.stop <= SHELL_STOP_COMMAND then w.(stop := 0) else w, rc, w.stop >= SHELL_STOP_COMMAND)
  }

  /** One command: an empty one succeeds, and one that cannot be expanded fails
      and ends the line. */
  function Run<W(!new)>(w: World<W>, args: seq<string>, exec: Command<W>, expand: Expander<W>): Result<W> {
    match Expanded(w, args, expand)
    case None => Result(w, ENOMEM, true)
    case Some(argv) => if argv == [] then Checked(w, 0) else Checked(exec(w, argv).0, exec(w, argv).1)
  }

  /** Short-circuit evaluation, left to right: the status of a command passed over
      is that of what came before it. */
  function Eval<W(!new)>(w: World<W>, t: Tree, exec: Command<W>, expand: Expander<W>): Result<W> {
    match t
    case Simple(args) => Run(w, args, exec, expand)
    case Join(first, op, args) =>
      var r := Eval(w, first, exec, expand);
      if r.stopped || !Wanted(op, r.rc) then r else Run(r.w, args, exec, expand)
  }

  // ------------------------------------------------------------------------
  // Lines put together
  // ------------------------------------------------------------------------

  /** Neither an operator nor the start of a comment. */
  predicate Ordinary(token: string) {
    token != "||" && token != "&&" && token != ";" && (token == [] || token[0] != '#')
  }

  ghost predicate AllOrdinary(tokens: seq<string>) {
    forall i :: 0 <= i < |tokens| ==> Ordinary(tokens[i])
  }

  ghost predicate NoComment(tokens: seq<string>) {
    forall i :: 0 <= i < |tokens| ==> tokens[i] == [] || tokens[i][0] != '#'
  }

  lemma {:induction false} ArgcOrdinary(a: seq<string>, rest: seq<string>)
    requires AllOrdinary(a) && (rest == [] || !Ordinary(rest[0]))
    ensures Argc(a + rest) == |a|
  {
    if a == [] {
      assert a + rest == rest;
    } else {
      assert (a + rest)[1..] == a[1..] + rest;
      ArgcOrdinary(a[1..], rest);
    }
  }

  lemma {:induction false} ArgcSplits(t: seq<string>)
    ensures AllOrdinary(t[..Argc(t)]) && (Argc(t) < |t| ==> !Ordinary(t[Argc(t)]))
  {
    if t != [] && Ordinary(t[0]) {
      ArgcSplits(t[1..]);
      var k := Argc(t);
      assert t[..k] == [t[0]] + t[1..][..k - 1];
    }
  }

  function OperatorText(op: Next): string
    requires op != End
  {
    match op
    case OnFailure => "||"
    case OnSuccess => "&&"
    case Always => ";"
  }

  lemma {:induction false} ExtendMore(t: Tree, op1: Next, r: seq<string>, op: Next, b: seq<string>)
    requires op1 != End && op != End && NoComment(r) && AllOrdinary(b)
    ensures Extend(t, op1, r + [OperatorText(op)] + b) == Join(Extend(t, op1, r), op, b)
    decreases |r|
  {
    hide AllOrdinary, Argc, NextOf, OperatorText;
    var k := Argc(r);
    var all := r + [OperatorText(op)] + b;
    NextMore(r, op, b);
    NextLast(b);
    if k == |r| {
      assert all[..k] == r && all[k + 1..] == b && r[..k] == r;
    } else {
      var rest := r[k + 1..];
      assert all[..k] == r[..k] && all[k + 1..] == rest + [OperatorText(op)] + b;
      ExtendMore(Join(t, op1, r[..k]), NextOf(r), rest, op, b);
    }
  }

  lemma ExtendOnce(t: Tree, op: Next, b: seq<string>)
    requires NextOf(b) == End && Argc(b) == |b|
    ensures op != End ==> Extend(t, op, b) == Join(t, op, b)
    ensures forall rest :: Extend(t, End, rest) == t
  {
    hide NextOf;
    assert b[..|b|] == b;
  }

  lemma NextLast(b: seq<string>)
    requires AllOrdinary(b)
    ensures Argc(b) == |b| && NextOf(b) == End && b[..|b|] == b
  {
    ArgcOrdinary(b, []);
    assert b + [] == b;
  }

  /** The first command of a line is not affected by what is put behind it. */
  lemma NextMore(r: seq<string>, op: Next, b: seq<string>)
    requires op != End && NoComment(r)
    ensures var all := r + [OperatorText(op)] + b;
      && Argc(all) == Argc(r)
      && NextOf(all) == (if Argc(r) == |r| then op else NextOf(r))
      && (Argc(r) < |r| ==> NextOf(r) != End)
  {
    hide Argc, AllOrdinary, Ordinary, Operator, Comment, OperatorText;
    OperatorRead(op);
    ArgcPrefix(r, OperatorText(op), b);
    ArgcSplits(r);
    if Argc(r) < |r| { OperatorFound(r[Argc(r)]); }
  }

  lemma OperatorRead(op: Next)
    requires op != End
    ensures var x := OperatorText(op); Operator(x) == Some(op) && !Comment(x) && !Ordinary(x)
  {
  }

  lemma OperatorFound(x: string)
    requires !Ordinary(x) && (x == [] || x[0] != '#')
    ensures !Comment(x) && Operator(x).Some? && Operator(x).value != End
  {
  }

  /** The first command ends where it did, or else with the token put behind it. */
  lemma ArgcPrefix(r: seq<string>, x: string, rest: seq<string>)
    requires !Ordinary(x)
    ensures var all := r + [x] + rest;
      Argc(all) == Argc(r) < |all| && all[Argc(r)] == if Argc(r) == |r| then x else r[Argc(r)]
  {
    hide Argc, AllOrdinary, Ordinary;
    var k := Argc(r);
    ArgcSplits(r);
    var more := r[k..] + ([x] + rest);
    assert r + [x] + rest == r[..k] + more;
    ArgcOrdinary(r[..k], more);
  }

  /** A command without operators stands for itself. */
  lemma ParseCommand(args: seq<string>)
    requires AllOrdinary(args)
    ensures Parse(args) == Simple(args)
  {
    NextLast(args);
  }

  /** One more command, joined to a line by an operator. */
  lemma ParseMore(t: seq<string>, op: Next, b: seq<string>)
    requires op != End && NoComment(t) && AllOrdinary(b)
    ensures Parse(t + [OperatorText(op)] + b) == Join(Parse(t), op, b)
  {
    hide AllOrdinary, OperatorText, Argc, NextOf, Extend;
    var k := Argc(t);
    var all := t + [OperatorText(op)] + b;
    NextMore(t, op, b);
    NextLast(b);
    if k == |t| {
      assert all[..k] == t && all[k + 1..] == b && t[..k] == t;
      ExtendOnce(Simple(t), op, b);
    } else {
      var rest := t[k + 1..];
      assert all[..k] == t[..k] && all[k + 1..] == rest + [OperatorText(op)] + b;
      ExtendMore(Simple(t[..k]), NextOf(t), rest, op, b);
    }
  }

  /** What a line does with one more command behind it: after `&&` the command is
      run on success of what came before, after `||` on failure, after `;` always,
      and never after a stop. */
  lemma RunsNext<W(!new)>(w: World<W>, t: seq<string>, b: seq<string>, exec: Command<W>, expand: Expander<W>)
    requires NoComment(t) && AllOrdinary(b)
    ensures var r := Eval(w, Parse(t), exec, expand);
      && Eval(w, Parse(t + ["&&"] + b), exec, expand)
         == (if r.stopped || r.rc != 0 then r else Run(r.w, b, exec, expand))
      && Eval(w, Parse(t + ["||"] + b), exec, expand)
         == (if r.stopped || r.rc == 0 then r else Run(r.w, b, exec, expand))
      && Eval(w, Parse(t + [";"] + b), exec, expand)
         == (if r.stopped then r else Run(r.w, b, exec, expand))
  {
    hide Parse, Run, AllOrdinary, NoComment;
    ParseMore(t, OnSuccess, b);
    ParseMore(t, OnFailure, b);
    ParseMore(t, Always, b);
  }

  lemma {:induction false} ExtendComment(t: Tree, op1: Next, r: seq<string>, c: string, rest: seq<string>)
    requires op1 != End && NoComment(r) && c != [] && c[0] == '#'
    ensures Extend(t, op1, r + [c] + rest) == Extend(t, op1, r)
    decreases |r|
  {
    var k := Argc(r);
    var all := r + [c] + rest;
    NextComment(r, c, rest);
    assert all[..k] == r[..k];
    if k < |r| {
      assert all[k + 1..] == r[k + 1..] + [c] + rest;
      ExtendComment(Join(t, op1, r[..k]), NextOf(r), r[k + 1..], c, rest);
    }
  }

  lemma NextComment(r: seq<string>, c: string, rest: seq<string>)
    requires NoComment(r) && c != [] && c[0] == '#'
    ensures var all := r + [c] + rest;
      Argc(all) == Argc(r) && NextOf(all) == NextOf(r) && (Argc(r) < |r| <==> NextOf(r) != End)
  {
    hide Argc, AllOrdinary, Ordinary, Operator;
    CommentRead(c);
    ArgcPrefix(r, c, rest);
    ArgcSplits(r);
    if Argc(r) < |r| { OperatorFound(r[Argc(r)]); }
  }

  lemma CommentRead(c: string)
    requires c != [] && c[0] == '#'
    ensures Comment(c) && !Ordinary(c)
  {
  }

  /** A comment and all behind it are ignored. */
  lemma CommentIgnored(t: seq<string>, c: string, rest: seq<string>)
    requires NoComment(t) && c != [] && c[0] == '#'
    ensures Parse(t + [c] + rest) == Parse(t)
  {
    var k := Argc(t);
    var all := t + [c] + rest;
    NextComment(t, c, rest);
    assert all[..k] == t[..k];
    if k < |t| {
      assert all[k + 1..] == t[k + 1..] + [c] + rest;
      ExtendComment(Simple(t[..k]), NextOf(t), t[k + 1..], c, rest);
    }
  }

  /** Once stopped, nothing more of the line matters. */
  lemma {:induction false} StoppedStays<W(!new)>(w: World<W>, t: Tree, op: Next, rest: seq<string>, exec: Command<W>, expand: Expander<W>)
    requires Eval(w, t, exec, expand).stopped
    ensures Eval(w, Extend(t, op, rest), exec, expand) == Eval(w, t, exec, expand)
    decreases |rest|
  {
    hide Run, Argc;
    if op != End && NextOf(rest) != End {
      var k := Argc(rest);
      StoppedStays(w, Join(t, op, rest[..k]), NextOf(rest), rest[k + 1..], exec, expand);
    }
  }

  function After(got: seq<string>, rest: Option<seq<string>>): Option<seq<string>> {
    if rest.None? then None else Some(got + rest.value)
  }

  method ExpandTokens<W(!new)>(w: World<W>, tokens: seq<string>, expand: Expander<W>) returns (argv: Option<seq<string>>)
    ensures argv == Expanded(w, tokens, expand)
  {
    var got := [];
    assert tokens[0..] == tokens;
    assert forall rest: seq<string> :: got + rest == rest;
    for i := 0 to |tokens|
      invariant Expanded(w, tokens, expand) == After(got, Expanded(w, tokens[i..], expand))
    {
      assert tokens[i..][1..] == tokens[i + 1..];
      var t := expand(w, tokens[i]);
      if t.None? { return None; }
      ghost var rest := Expanded(w, tokens[i + 1..], expand);
      assert rest.Some? ==> got + ([t.value] + rest.value) == got + [t.value] + rest.value;
      got := got + [t.value];
    }
    assert tokens[|tokens|..] == [];
    assert got + [] == got;
    return Some(got);
  }

  method ShellStopped<W(!new)>(w: World<W>, stop: int) returns (w': World<W>, stopped: bool)
    ensures stop == SHELL_STOP_COMMAND ==> forall rc :: Checked(w, rc) == Result(w', rc, stopped)
    ensures stopped <==> w.stop >= stop
    ensures w' == if w.stop <= stop then w.(stop := 0) else w
  {
    stopped := w.stop >= stop;
    w' := w;
    if w.stop <= stop { w' := w.(stop := 0); }
  }

  /** Expand, execute and test for a stop. */
  method RunCommand<W(!new)>(w: World<W>, tokens: seq<string>, exec: Command<W>, expand: Expander<W>) returns (r: Result<W>)
    ensures r == Run(w, tokens, exec, expand)
    ensures !r.stopped ==> r.w.stop == 0
  {
    hide Expanded;
    var argv := ExpandTokens(w, tokens, expand);
    if argv.None? { return Result(w, ENOMEM, true); }
    var w', rc := w, 0;
    if argv.value != [] {
      var after := exec(w, argv.value);
      w', rc := after.0, after.1;
    }
    var w'', stopped := ShellStopped(w', SHELL_STOP_COMMAND);
    r := Result(w'', rc, stopped);
  }

  method Execute<W(!new)>(tokens: seq<string>, w: World<W>, exec: Command<W>, expand: Expander<W>) returns (w': World<W>, rc: int)
    ensures
      var r := Eval(w, Parse(tokens), exec, expand);
      w' == r.w && rc == r.rc
  {
    hide Argc, NextOf, Run, Checked, Expanded, Wanted;
    var at, process := 0, true;
    w', rc := w, 0;
    ghost var t, op := Simple([]), End;
    while true
      invariant 0 <= at <= |tokens|
      invariant at == 0 ==> process && w' == w
      invariant at > 0 ==> w'.stop == 0 && op != End && process == Wanted(op, rc)
      invariant at > 0 ==> Eval(w, t, exec, expand) == Result(w', rc, false) && Parse(tokens) == Extend(t, op, tokens[at..])
      decreases |tokens| - at
    {
      var rest := tokens[at..];
      assert at == 0 ==> rest == tokens;
      var argc, next := CommandTerminator(rest);
      t := if at == 0 then Simple(rest[..argc]) else Join(t, op, rest[..argc]);
      assert Parse(tokens) == if next == End then t else Extend(t, next, rest[argc + 1..]);
      var stopped;
      if process {
        var r := RunCommand(w', rest[..argc], exec, expand);
        w', rc, stopped := r.w, r.rc, r.stopped;
      } else {
        w', stopped := ShellStopped(w', SHELL_STOP_COMMAND);
      }
      assert Eval(w, t, exec, expand) == Result(w', rc, stopped);
      if stopped {
        if next != End { StoppedStays(w, t, next, rest[argc + 1..], exec, expand); }
        break;
      }
      if next == End { break; }
      process := Wanted(next, rc);
      op := next;
      assert rest[argc + 1..] == tokens[at + argc + 1..];
      at := at + argc + 1;
    }
  }

  /** The commands executed, and the status returned, are those of short-circuit
      evaluation of the line.  The token list is filled with exactly as many
      tokens as were counted. */
  method System<W(!new)>(command: string, memory: bool, w: World<W>, exec: Command<W>, expand: Expander<W>)
      returns (w': World<W>, rc: int)
    requires NUL !in command
    ensures !memory ==> w' == w && rc == ENOMEM
    ensures memory ==>
      var r := Eval(w, Parse(Tokens(command)), exec, expand);
      w' == r.w && rc == r.rc
  {
    hide Starts, WordEnd, StrAt, Blanked, Eval, Parse, Tokens;
    var line := new char[|command|](i requires 0 <= i < |command| => command[i]);
    assert line[..] == command;
    var count, none := SplitCommand(line, false);
    if !memory { return w, ENOMEM; }
    var copy := new char[|command|](i requires 0 <= i < |command| => command[i]);
    assert copy[..] == command;
    var filled, starts := SplitCommand(copy, true);
    assert filled == count;
    var text := copy[..];
    var tokens := seq(count, k requires 0 <= k < |starts| && starts[k] <= |text| => StrAt(text, starts[k]));
    forall k | 0 <= k < count ensures tokens[k] == Tokens(command)[k] { TokenStrings(command, k); }
    assert tokens == Tokens(command);
    w', rc := Execute(tokens, w, exec, expand);
  }

  /** The arguments with one space between each two. */
  function Spaced(args: seq<string>): string {
    if args == [] then []
    else if |args| == 1 then args[0]
    else Spaced(args[..|args| - 1]) + " " + args[|args| - 1]
  }

  predicate Word(w: string) {
    w != [] && forall k :: 0 <= k < |w| ==> !IsSpace(w[k])
  }

  /** The end of a word is not affected by what follows the next space. */
  lemma {:induction false} WordEndStays(s: string, w: string, p: nat)
    requires p <= |s|
    ensures WordEnd(s + " " + w, p) == WordEnd(s, p)
    decreases |s| - p
  {
    var t := s + " " + w;
    assert t[|s|] == ' ';
    if p < |s| && !IsSpace(s[p]) { WordEndStays(s, w, p + 1); }
  }

  lemma {:induction false} WordEndLast(s: string, p: nat)
    requires p <= |s| && forall k :: p <= k < |s| ==> !IsSpace(s[k])
    ensures WordEnd(s, p) == |s|
    decreases |s| - p
  {
    if p < |s| { WordEndLast(s, p + 1); }
  }

  /** One more word at the end of a line is one more token. */
  lemma {:induction false} StartsMore(s: string, w: string, p: nat)
    requires p <= |s| && Word(w)
    ensures Starts(s + " " + w, p) == Starts(s, p) + [|s| + 1]
    decreases |s| - p
  {
    var t := s + " " + w;
    if p == |s| {
      assert t[p] == ' ' && t[p + 1] == w[0];
      forall k | p + 1 <= k < |t| ensures !IsSpace(t[k]) { assert t[k] == w[k - p - 1]; }
      WordEndLast(t, p + 1);
      assert Starts(t, |t|) == [];
    } else if IsSpace(s[p]) {
      StartsMore(s, w, p + 1);
    } else {
      WordEndStays(s, w, p);
      StartsMore(s, w, WordEnd(s, p));
      assert [p] + (Starts(s, WordEnd(s, p)) + [|s| + 1]) == [p] + Starts(s, WordEnd(s, p)) + [|s| + 1];
    }
  }

  lemma TokensMore(s: string, w: string)
    requires Word(w)
    ensures Tokens(s + " " + w) == Tokens(s) + [w]
  {
    hide Starts, WordEnd, IsSpace;
    var t, starts := s + " " + w, Starts(s, 0);
    StartsMore(s, w, 0);
    forall k | 0 <= k < |starts| ensures Tokens(t)[k] == Tokens(s)[k] {
      WordEndStays(s, w, starts[k]);
    }
    forall k | |s| + 1 <= k < |t| ensures !IsSpace(t[k]) { assert t[k] == w[k - |s| - 1]; }
    WordEndLast(t, |s| + 1);
    assert t[|s| + 1..|t|] == w;
  }

  lemma TokensOne(w: string)
    requires Word(w)
    ensures Tokens(w) == [w]
  {
    WordEndLast(w, 0);
    assert Starts(w, |w|) == [];
    assert w[0..|w|] == w;
  }

  /** Splitting gives the arguments back exactly when each of them is a word. */
  lemma {:induction false} SplitSpaced(args: seq<string>)
    ensures Tokens(Spaced(args)) == args <==> forall k :: 0 <= k < |args| ==> Word(args[k])
  {
    TokensAreWords(Spaced(args));
    if forall k :: 0 <= k < |args| ==> Word(args[k]) { SpacedWords(args); }
  }

  lemma TokensAreWords(s: string)
    ensures forall k :: 0 <= k < |Tokens(s)| ==> Word(Tokens(s)[k])
  {
    forall k | 0 <= k < |Tokens(s)| ensures Word(Tokens(s)[k]) {
      var p := Starts(s, 0)[k];
      assert WordEnd(s, p) > p;
    }
  }

  lemma {:induction false} SpacedWords(args: seq<string>)
    requires forall k :: 0 <= k < |args| ==> Word(args[k])
    ensures Tokens(Spaced(args)) == args
  {
    hide Tokens, Word;
    if args == [] {
      NoTokens();
    } else if |args| == 1 {
      TokensOne(args[0]);
    } else {
      var front, w := args[..|args| - 1], args[|args| - 1];
      SpacedWords(front);
      TokensMore(Spaced(front), w);
    }
  }

  lemma NoTokens()
    ensures Tokens([]) == []
  {
  }

  /** The length of the arguments, each with a space before it. */
  function SpacedLen(args: seq<string>): nat {
    if args == [] then 0 else SpacedLen(args[..|args| - 1]) + 1 + |args[|args| - 1]|
  }

  lemma {:induction false} SpacedLens(args: seq<string>, i: nat)
    requires i <= |args|
    ensures |Spaced(args)| + (if args == [] then 0 else 1) == SpacedLen(args)
    ensures SpacedLen(args[..i]) <= SpacedLen(args)
    decreases |args|
  {
    if args != [] {
      var front := args[..|args| - 1];
      SpacedLens(front, if i < |args| then i else |args| - 1);
      if i < |args| { assert front[..i] == args[..i]; } else { assert args[..i] == args; }
    }
  }

  /** The string allocated has room for the arguments and the terminator. */
  method ConcatArgs(args: seq<string>, memory: bool) returns (s: array?<char>)
    requires forall k :: 0 <= k < |args| ==> NUL !in args[k]
    ensures s == null <==> !memory
    ensures s != null ==> fresh(s) && s.Length == |Spaced(args)| + (if args == [] then 1 else 2)
    ensures s != null ==> s[..|Spaced(args)|] == Spaced(args)
    ensures s != null ==> forall k :: |Spaced(args)| <= k < s.Length ==> s[k] == NUL
  {
    hide Spaced, SpacedLen;
    var len := 1;
    SpacedStep(args, 0);
    for i := 0 to |args|
      invariant len == 1 + SpacedLen(args[..i])
    {
      SpacedStep(args, i);
      len := len + 1 + |args[i]|;
    }
    assert args[..|args|] == args;
    if !memory { return null; }
    s := new char[len](_ => NUL);
    var p := 0;
    for i := 0 to |args|
      invariant p == |Spaced(args[..i])| < len && s[..p] == Spaced(args[..i])
      invariant forall k :: p <= k < len ==> s[k] == NUL
    {
      SpacedStep(args, i);
      SpacedLens(args, i + 1);
      SpacedLens(args[..i + 1], i + 1);
      var text := (if i == 0 then "" else " ") + args[i];
      forall k | 0 <= k < |text| { s[p + k] := text[k]; }
      assert s[..p + |text|] == Spaced(args[..i]) + text;
      p := p + |text|;
    }
    assert args[..|args|] == args;
    SpacedLens(args, 0);
  }

  lemma SpacedStep(args: seq<string>, i: nat)
    ensures Spaced(args[..0]) == [] && SpacedLen(args[..0]) == 0
    ensures i < |args| ==> Spaced(args[..i + 1]) == Spaced(args[..i]) + ((if i == 0 then "" else " ") + args[i])
    ensures i < |args| ==> SpacedLen(args[..i + 1]) == SpacedLen(args[..i]) + 1 + |args[i]|
  {
    if i < |args| {
      assert args[..i + 1][..i] == args[..i];
      assert Spaced(args[..i]) + " " + args[i] == Spaced(args[..i]) + (" " + args[i]);
    }
  }
}
