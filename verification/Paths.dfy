// Path canonicalisation and lookup in the node tree (src/kernel/vfs.c).
module Paths {
  import opened Basics

  const MAX_COMPONENTS: nat := 32

  // ---- components ----

  /** Length of the component a path starts with. */
  function CompLen(p: string): (n: nat)
    ensures n <= |p| && (n < |p| ==> p[n] == '/') && forall i :: 0 <= i < n ==> p[i] != '/'
  {
    if p == "" || p[0] == '/' then 0 else 1 + CompLen(p[1..])
  }

  /** The components of a path, without the slashes around them. */
  function Comps(p: string): (cs: seq<string>)
    decreases |p|
  {
    if p == "" then []
    else if p[0] == '/' then Comps(p[1..])
    else [p[..CompLen(p)]] + Comps(p[CompLen(p)..])
  }

  predicate Named(c: string) { c != "" && c != "." && c != ".." && '/' !in c }

  ghost predicate AllNamed(cs: seq<string>) { forall i :: 0 <= i < |cs| ==> Named(cs[i]) }

  // ---- resolving ----

  /** What one component does to the component stack: a full stack silently ignores a name. */
  function Step(stack: seq<string>, c: string): seq<string> {
    if c == "." then stack
    else if c == ".." then (if stack == [] then [] else stack[..|stack| - 1])
    else if |stack| < MAX_COMPONENTS then stack + [c]
    else stack
  }

  function Resolve(stack: seq<string>, cs: seq<string>): seq<string>
    decreases |cs|
  {
    if cs == [] then stack else Resolve(Step(stack, cs[0]), cs[1..])
  }

  function Join(cs: seq<string>): string {
    if cs == [] then "" else "/" + cs[0] + Join(cs[1..])
  }

  function Render(cs: seq<string>): string { if cs == [] then "/" else Join(cs) }

  /** The component stack vfs_build_path ends with. */
  function Stack(cwd: string, input: string): seq<string> {
    var start := if input != "" && input[0] == '/' then [] else Resolve([], Comps(cwd));
    Resolve(start, Comps(input))
  }

  /** vfs_build_path, with an output buffer of `capacity` characters, the final NUL included. */
  function Build(cwd: string, input: string, capacity: nat): Option<string> {
    var s := Stack(cwd, input);
    if capacity < 2 then None
    else if s != [] && |Join(s)| >= capacity then None
    else Some(Render(s))
  }

  // ---- resolving without a limit ----

  /** What a component means: the same on a stack that always has room. */
  function FullStep(stack: seq<string>, c: string): seq<string> {
    if c == "." then stack
    else if c == ".." then (if stack == [] then [] else stack[..|stack| - 1])
    else stack + [c]
  }

  function FullResolve(stack: seq<string>, cs: seq<string>): seq<string>
    decreases |cs|
  {
    if cs == [] then stack else FullResolve(FullStep(stack, cs[0]), cs[1..])
  }

  function FullStack(cwd: string, input: string): seq<string> {
    var start := if input != "" && input[0] == '/' then [] else FullResolve([], Comps(cwd));
    FullResolve(start, Comps(input))
  }

  /** How deep a path leads: one more per name, one less per `..` but never above the root. */
  function Depth(d: nat, cs: seq<string>): nat
    decreases |cs|
  {
    if cs == [] then d
    else if cs[0] == "." then Depth(d, cs[1..])
    else if cs[0] == ".." then Depth(if d == 0 then 0 else d - 1, cs[1..])
    else Depth(d + 1, cs[1..])
  }

  function TrueDepth(cwd: string, input: string): nat {
    Depth(if input != "" && input[0] == '/' then 0 else Depth(0, Comps(cwd)), Comps(input))
  }

  lemma {:induction false} DepthIs(stack: seq<string>, cs: seq<string>)
    ensures |FullResolve(stack, cs)| == Depth(|stack|, cs)
    decreases |cs|
  {
    if cs != [] {
      DepthIs(FullStep(stack, cs[0]), cs[1..]);
    }
  }

  /** The limited stack has lost nothing, or it is the shorter one. */
  predicate Behind(stack: seq<string>, full: seq<string>) { stack == full || |stack| < |full| }

  lemma StepBehind(stack: seq<string>, full: seq<string>, c: string)
    requires Behind(stack, full)
    ensures Behind(Step(stack, c), FullStep(full, c))
  {}

  lemma {:induction false} ResolveBehind(stack: seq<string>, full: seq<string>, cs: seq<string>)
    requires Behind(stack, full)
    ensures Behind(Resolve(stack, cs), FullResolve(full, cs))
    decreases |cs|
  {
    hide Step, FullStep, Behind;
    if cs != [] {
      StepBehind(stack, full, cs[0]);
      ResolveBehind(Step(stack, cs[0]), FullStep(full, cs[0]), cs[1..]);
    }
  }

  /** Resolving these components from depth d never leads deeper than the stack holds. */
  predicate Shallow(d: nat, cs: seq<string>)
    decreases |cs|
  {
    d <= MAX_COMPONENTS && (cs == [] || Shallow(Depth(d, cs[..1]), cs[1..]))
  }

  lemma {:induction false} ResolveShallow(stack: seq<string>, cs: seq<string>)
    requires Shallow(|stack|, cs)
    ensures Resolve(stack, cs) == FullResolve(stack, cs)
    decreases |cs|
  {
    if cs != [] {
      var next := FullStep(stack, cs[0]);
      DepthIs(stack, cs[..1]);
      assert cs[..1][1..] == [];
      assert FullResolve(stack, cs[..1]) == FullResolve(next, []) == next;
      assert Shallow(|next|, cs[1..]);
      assert Step(stack, cs[0]) == next;
      ResolveShallow(next, cs[1..]);
    }
  }

  /** The stack is what the components mean exactly when it is as deep as they lead. */
  lemma StackIsFull(cwd: string, input: string)
    ensures Stack(cwd, input) == FullStack(cwd, input) <==> |Stack(cwd, input)| == TrueDepth(cwd, input)
  {
    hide Resolve, FullResolve, Depth, Comps;
    ResolveBehind([], [], Comps(cwd));
    DepthIs([], Comps(cwd));
    var slash := input != "" && input[0] == '/';
    var start := if slash then [] else Resolve([], Comps(cwd));
    var full := if slash then [] else FullResolve([], Comps(cwd));
    ResolveBehind(start, full, Comps(input));
    DepthIs(full, Comps(input));
  }

  /** In particular when neither path ever leads deeper than 32. */
  lemma ShallowIsFull(cwd: string, input: string)
    requires if input != "" && input[0] == '/' then Shallow(0, Comps(input))
             else Shallow(0, Comps(cwd)) && Shallow(Depth(0, Comps(cwd)), Comps(input))
    ensures |Stack(cwd, input)| == TrueDepth(cwd, input)
  {
    hide Comps, Shallow, Depth, Resolve, FullResolve;
    if input != "" && input[0] == '/' {
      ResolveShallow([], Comps(input));
    } else {
      ResolveShallow([], Comps(cwd));
      DepthIs([], Comps(cwd));
      ResolveShallow(FullResolve([], Comps(cwd)), Comps(input));
    }
    StackIsFull(cwd, input);
  }

  // ---- canonical form ----

  lemma {:induction false} CompsNamed(p: string, i: nat)
    requires i < |Comps(p)|
    ensures Comps(p)[i] != "" && '/' !in Comps(p)[i]
    decreases |p|
  {
    if p[0] == '/' {
      CompsNamed(p[1..], i);
    } else if i > 0 {
      CompsNamed(p[CompLen(p)..], i - 1);
    }
  }

  lemma StepNamed(stack: seq<string>, c: string)
    requires AllNamed(stack) && |stack| <= MAX_COMPONENTS && c != "" && '/' !in c
    ensures AllNamed(Step(stack, c)) && |Step(stack, c)| <= MAX_COMPONENTS
  {}

  lemma {:induction false} ResolveNamed(stack: seq<string>, cs: seq<string>)
    requires AllNamed(stack) && |stack| <= MAX_COMPONENTS && forall i :: 0 <= i < |cs| ==> cs[i] != "" && '/' !in cs[i]
    ensures AllNamed(Resolve(stack, cs)) && |Resolve(stack, cs)| <= MAX_COMPONENTS
    decreases |cs|
  {
    hide Step;
    if cs != [] {
      StepNamed(stack, cs[0]);
      ResolveNamed(Step(stack, cs[0]), cs[1..]);
    }
  }

  lemma StackNamed(cwd: string, input: string)
    ensures AllNamed(Stack(cwd, input)) && |Stack(cwd, input)| <= MAX_COMPONENTS
  {
    hide Resolve, Comps;
    forall i | 0 <= i < |Comps(cwd)|
      ensures Comps(cwd)[i] != "" && '/' !in Comps(cwd)[i]
    {
      CompsNamed(cwd, i);
    }
    forall i | 0 <= i < |Comps(input)|
      ensures Comps(input)[i] != "" && '/' !in Comps(input)[i]
    {
      CompsNamed(input, i);
    }
    ResolveNamed([], Comps(cwd));
    var start := if input != "" && input[0] == '/' then [] else Resolve([], Comps(cwd));
    ResolveNamed(start, Comps(input));
  }

  lemma {:induction false} CompLenOf(c: string, rest: string)
    requires '/' !in c && (rest == "" || rest[0] == '/')
    ensures CompLen(c + rest) == |c|
  {
    if c == "" {
      assert c + rest == rest;
    } else {
      assert (c + rest)[1..] == c[1..] + rest;
      CompLenOf(c[1..], rest);
    }
  }

  lemma JoinStarts(cs: seq<string>)
    ensures Join(cs) == "" || Join(cs)[0] == '/'
  {}

  lemma CompsOfSlash(c: string, rest: string)
    requires c != "" && '/' !in c && (rest == "" || rest[0] == '/')
    ensures Comps("/" + c + rest) == [c] + Comps(rest)
  {
    hide CompLen;
    CompLenOf(c, rest);
    var p := c + rest;
    assert p[0] == c[0];
    assert p[..|c|] == c && p[|c|..] == rest;
    assert ("/" + c + rest)[1..] == p;
  }

  /** A canonical path has exactly the components it was made of. */
  lemma {:induction false} CompsJoin(cs: seq<string>)
    requires AllNamed(cs)
    ensures Comps(Join(cs)) == cs
    decreases |cs|
  {
    if cs != [] {
      hide Comps;
      var rest := Join(cs[1..]);
      JoinStarts(cs[1..]);
      CompsOfSlash(cs[0], rest);
      assert Join(cs) == "/" + cs[0] + rest;
      assert [cs[0]] + cs[1..] == cs;
      CompsJoin(cs[1..]);
    }
  }

  lemma CompsRender(cs: seq<string>)
    requires AllNamed(cs)
    ensures Comps(Render(cs)) == cs && Render(cs) != "" && Render(cs)[0] == '/'
  {
    CompsJoin(cs);
    if cs == [] {
      assert Comps("/") == Comps("");
    }
  }

  /** Names alone are pushed one by one. */
  lemma {:induction false} ResolveNames(stack: seq<string>, cs: seq<string>)
    requires AllNamed(cs) && |stack| + |cs| <= MAX_COMPONENTS
    ensures Resolve(stack, cs) == stack + cs
    decreases |cs|
  {
    if cs != [] {
      assert Named(cs[0]);
      ResolveNames(stack + [cs[0]], cs[1..]);
      assert stack + [cs[0]] + cs[1..] == stack + cs;
    } else {
      assert stack + cs == stack;
    }
  }

  /** The result is an absolute path of at most 32 names with no empty, `.` or `..` component. */
  lemma Canonical(cwd: string, input: string, capacity: nat)
    requires Build(cwd, input, capacity).Some?
    ensures var out := Build(cwd, input, capacity).value;
            && out != "" && out[0] == '/' && AllNamed(Comps(out)) && |Comps(out)| <= MAX_COMPONENTS && |out| < capacity
            && out == Render(Comps(out))
  {
    hide Stack, Comps, Render;
    StackNamed(cwd, input);
    CompsRender(Stack(cwd, input));
    RenderLength(Stack(cwd, input));
  }

  lemma RenderLength(cs: seq<string>)
    ensures |Render(cs)| == if cs == [] then 1 else |Join(cs)|
  {}

  /** It is refused exactly when the buffer cannot hold it and its NUL; otherwise its names are those of the stack. */
  lemma BuildExactly(cwd: string, input: string, capacity: nat)
    ensures Build(cwd, input, capacity).Some? <==> capacity >= 2 && |Render(Stack(cwd, input))| < capacity
    ensures Build(cwd, input, capacity).Some? ==> Comps(Build(cwd, input, capacity).value) == Stack(cwd, input)
  {
    hide Stack, Comps, Render;
    StackNamed(cwd, input);
    CompsRender(Stack(cwd, input));
    RenderLength(Stack(cwd, input));
  }

  /** Building a path from a canonical one gives it back, whatever the working directory. */
  lemma Idempotent(cwd: string, input: string, capacity: nat, other: string)
    requires Build(cwd, input, capacity).Some?
    ensures Build(other, Build(cwd, input, capacity).value, capacity) == Build(cwd, input, capacity)
  {
    hide Comps, Render, Resolve;
    var s := Stack(cwd, input);
    StackNamed(cwd, input);
    CompsRender(s);
    ResolveNames([], s);
    assert [] + s == s;
  }
}
