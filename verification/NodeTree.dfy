// Looking paths up in the node tree, and that canonical paths mean the same (src/kernel/vfs.c).
module NodeTree {
  import opened Basics
  import opened Paths

  /** A node: parent 0 for the root; children in sibling order. */
  datatype Node = Node(parent: nat, name: string, directory: bool, children: seq<nat>)

  type Tree = map<nat, Node>

  /** Every child exists, is neither NULL nor its own parent and points back to its parent; the root has none. */
  ghost predicate ChildOk(t: Tree, n: nat, i: nat)
    requires n in t && i < |t[n].children|
  {
    var c := t[n].children[i]; c != 0 && c != n && c in t && t[c].parent == n
  }

  ghost predicate TreeOk(t: Tree, root: nat) {
    && root != 0 && 0 !in t && root in t && t[root].parent == 0
    && (forall n, i :: n in t && 0 <= i < |t[n].children| ==> ChildOk(t, n, i))
    && (forall n :: n in t && t[n].parent != 0 ==> t[n].parent in t)
  }

  /** The first child from index i on with that name, or 0. */
  function ChildFrom(t: Tree, n: nat, name: string, i: nat): (c: nat)
    requires n in t
    ensures c != 0 ==> exists k :: i <= k < |t[n].children| && t[n].children[k] == c
    decreases |t[n].children| - i
  {
    if i >= |t[n].children| then 0
    else
      var c := t[n].children[i];
      if c in t && t[c].name == name then c else ChildFrom(t, n, name, i + 1)
  }

  /** One component of a walk; 0 is failure. */
  function Go(t: Tree, n: nat, c: string): nat {
    if n !in t || !t[n].directory then 0
    else if c == "." then n
    else if c == ".." then (if t[n].parent != 0 then t[n].parent else n)
    else ChildFrom(t, n, c, 0)
  }

  function Walk(t: Tree, n: nat, cs: seq<string>): nat
    decreases |cs|
  {
    if cs == [] then n else Walk(t, Go(t, n, cs[0]), cs[1..])
  }

  /** vfs_find_relative on a tree without mounts. */
  function Find(t: Tree, root: nat, base: nat, path: string): nat {
    if path == "" then 0 else Walk(t, if path[0] == '/' || base == 0 then root else base, Comps(path))
  }

  // ---- the stack tracks the walk ----

  lemma {:induction false} WalkFails(t: Tree, cs: seq<string>)
    requires 0 !in t
    ensures Walk(t, 0, cs) == 0
    decreases |cs|
  {
    if cs != [] {
      WalkFails(t, cs[1..]);
    }
  }

  lemma {:induction false} WalkConcat(t: Tree, n: nat, cs: seq<string>, ds: seq<string>)
    ensures Walk(t, n, cs + ds) == Walk(t, Walk(t, n, cs), ds)
    decreases |cs|
  {
    if cs == [] {
      assert cs + ds == ds;
    } else {
      assert (cs + ds)[1..] == cs[1..] + ds;
      WalkConcat(t, Go(t, n, cs[0]), cs[1..], ds);
    }
  }

  lemma WalkOne(t: Tree, n: nat, cs: seq<string>, c: string)
    ensures Walk(t, n, cs + [c]) == Go(t, Walk(t, n, cs), c)
  {
    WalkConcat(t, n, cs, [c]);
  }

  /** Going to a child and up again leads back. */
  lemma UpAgain(t: Tree, root: nat, n: nat, c: string)
    requires TreeOk(t, root) && Named(c) && Go(t, n, c) != 0
    ensures n in t && Go(t, n, c) in t && t[Go(t, n, c)].parent == n && n != 0 && Go(t, n, c) != n
  {
    var k :| 0 <= k < |t[n].children| && t[n].children[k] == Go(t, n, c);
    assert ChildOk(t, n, k);
  }

  /** The walk so far and the stack of names name the same node. */
  ghost predicate Tracks(t: Tree, root: nat, stack: seq<string>, n: nat) {
    AllNamed(stack) && n != 0 && Walk(t, root, stack) == n
  }

  lemma Names(stack: seq<string>, n: nat)
    requires AllNamed(stack) && n <= |stack|
    ensures AllNamed(stack[..n]) && (n < |stack| ==> Named(stack[n]))
  {}

  lemma StepTracks(t: Tree, root: nat, stack: seq<string>, n: nat, c: string)
    requires TreeOk(t, root) && Tracks(t, root, stack, n) && c != "" && '/' !in c && Go(t, n, c) != 0
    ensures Tracks(t, root, FullStep(stack, c), Go(t, n, c))
  {
    hide Walk, TreeOk;
    if c == ".." {
      if stack == [] {
        RootStays(t, root);
      } else {
        var up, last := stack[..|stack| - 1], stack[|stack| - 1];
        assert stack == up + [last];
        Names(stack, |stack| - 1);
        WalkOne(t, root, up, last);
        UpAgain(t, root, Walk(t, root, up), last);
      }
    } else if c != "." {
      WalkOne(t, root, stack, c);
    }
  }

  lemma RootStays(t: Tree, root: nat)
    requires TreeOk(t, root)
    ensures Walk(t, root, []) == root && root in t && t[root].parent == 0 && root != 0
  {}

  lemma {:induction false} ResolveTracks(t: Tree, root: nat, stack: seq<string>, n: nat, cs: seq<string>)
    requires TreeOk(t, root) && Tracks(t, root, stack, n) && Walk(t, n, cs) != 0
    requires forall i :: 0 <= i < |cs| ==> cs[i] != "" && '/' !in cs[i]
    ensures Tracks(t, root, FullResolve(stack, cs), Walk(t, n, cs))
    decreases |cs|
  {
    hide Tracks, FullStep, Go;
    if cs != [] {
      if Go(t, n, cs[0]) == 0 {
        NoNull(t, root);
        WalkFails(t, cs[1..]);
      }
      StepTracks(t, root, stack, n, cs[0]);
      ResolveTracks(t, root, FullStep(stack, cs[0]), Go(t, n, cs[0]), cs[1..]);
    }
  }

  lemma NoNull(t: Tree, root: nat)
    requires TreeOk(t, root)
    ensures 0 !in t
  {}

  lemma Slashless(p: string)
    ensures forall i :: 0 <= i < |Comps(p)| ==> Comps(p)[i] != "" && '/' !in Comps(p)[i]
  {
    hide Comps;
    forall i | 0 <= i < |Comps(p)|
      ensures Comps(p)[i] != "" && '/' !in Comps(p)[i]
    {
      CompsNamed(p, i);
    }
  }

  /** What the components mean leads from the root to the node the input leads to. */
  lemma StackTracks(t: Tree, root: nat, cwd: string, base: nat, input: string)
    requires TreeOk(t, root) && Walk(t, root, Comps(cwd)) == base != 0 && Find(t, root, base, input) != 0
    ensures Tracks(t, root, FullStack(cwd, input), Find(t, root, base, input))
  {
    hide Walk, FullResolve, Comps, TreeOk;
    RootStays(t, root);
    Slashless(cwd);
    Slashless(input);
    if input[0] == '/' {
      ResolveTracks(t, root, [], root, Comps(input));
    } else {
      ResolveTracks(t, root, [], root, Comps(cwd));
      ResolveTracks(t, root, FullResolve([], Comps(cwd)), base, Comps(input));
    }
  }

  /** The child found bears the name. */
  lemma {:induction false} ChildNamed(t: Tree, n: nat, name: string, i: nat)
    requires n in t && ChildFrom(t, n, name, i) != 0
    ensures ChildFrom(t, n, name, i) in t && t[ChildFrom(t, n, name, i)].name == name
    decreases |t[n].children| - i
  {
    var c := t[n].children[i];
    if !(c in t && t[c].name == name) {
      ChildNamed(t, n, name, i + 1);
    }
  }

  /** find_child finds the first child that bears the name, and fails exactly when none does. */
  lemma {:induction false} ChildExactly(t: Tree, n: nat, name: string, i: nat)
    requires 0 !in t && n in t && i <= |t[n].children|
    requires forall k :: i <= k < |t[n].children| ==> t[n].children[k] in t
    ensures FirstNamed(t, n, name, i, ChildFrom(t, n, name, i))
    decreases |t[n].children| - i
  {
    if i < |t[n].children| && t[t[n].children[i]].name != name {
      ChildExactly(t, n, name, i + 1);
      var c := ChildFrom(t, n, name, i + 1);
      if c != 0 {
        var k :| i + 1 <= k < |t[n].children| && t[n].children[k] == c && t[c].name == name &&
          forall j :: i + 1 <= j < k ==> t[t[n].children[j]].name != name;
        assert forall j :: i <= j < k ==> t[t[n].children[j]].name != name;
      }
    }
  }

  /** c is the first child from index i on that bears the name, or 0 and there is none. */
  ghost predicate FirstNamed(t: Tree, n: nat, name: string, i: nat, c: nat)
    requires n in t && forall k :: i <= k < |t[n].children| ==> t[n].children[k] in t
  {
    if c == 0 then forall k :: i <= k < |t[n].children| ==> t[t[n].children[k]].name != name
    else exists k :: i <= k < |t[n].children| && t[n].children[k] == c && c in t && t[c].name == name &&
                     forall j :: i <= j < k ==> t[t[n].children[j]].name != name
  }

  /** Siblings have different names. */
  ghost predicate Distinct(t: Tree) {
    forall n, i, j :: n in t && 0 <= i < j < |t[n].children| && t[n].children[i] in t && t[n].children[j] in t ==>
                        t[t[n].children[i]].name != t[t[n].children[j]].name
  }

  /** From n, through directories, a child with each name in turn leads to m. */
  ghost predicate Leads(t: Tree, n: nat, names: seq<string>, m: nat)
    decreases |names|
  {
    if names == [] then n == m
    else
      && n in t && t[n].directory
      && exists k :: 0 <= k < |t[n].children| && t[n].children[k] in t && t[t[n].children[k]].name == names[0] &&
                     Leads(t, t[n].children[k], names[1..], m)
  }

  lemma GoToChild(t: Tree, root: nat, n: nat, name: string, k: nat)
    requires TreeOk(t, root) && Distinct(t) && n in t && t[n].directory && Named(name)
    requires k < |t[n].children| && t[n].children[k] in t && t[t[n].children[k]].name == name
    ensures Go(t, n, name) == t[n].children[k]
  {
    forall i | 0 <= i < |t[n].children|
      ensures t[n].children[i] in t
    {
      assert ChildOk(t, n, i);
    }
    ChildExactly(t, n, name, 0);
  }

  lemma {:induction false} WalkExactly(t: Tree, root: nat, n: nat, names: seq<string>, m: nat)
    requires TreeOk(t, root) && Distinct(t) && AllNamed(names) && m in t
    ensures Walk(t, n, names) == m <==> Leads(t, n, names, m)
    decreases |names|
  {
    if names != [] {
      hide TreeOk, Distinct, Walk;
      NoNull(t, root);
      Names(names, 0);
      Rest(names);
      var d := Go(t, n, names[0]);
      if Walk(t, n, names) == m {
        WalkExactly(t, root, d, names[1..], m);
        LeadsBack(t, root, n, names, m);
      }
      if Leads(t, n, names, m) {
        var k :| 0 <= k < |t[n].children| && t[n].children[k] in t && t[t[n].children[k]].name == names[0] &&
          Leads(t, t[n].children[k], names[1..], m);
        GoToChild(t, root, n, names[0], k);
        WalkExactly(t, root, d, names[1..], m);
        WalkFirst(t, n, names);
      }
    }
  }

  lemma Rest(names: seq<string>)
    requires AllNamed(names) && names != []
    ensures AllNamed(names[1..]) && Named(names[0])
  {}

  lemma WalkFirst(t: Tree, n: nat, names: seq<string>)
    requires names != []
    ensures Walk(t, n, names) == Walk(t, Go(t, n, names[0]), names[1..])
  {}

  lemma LeadsBack(t: Tree, root: nat, n: nat, names: seq<string>, m: nat)
    requires TreeOk(t, root) && AllNamed(names) && names != [] && m in t && Walk(t, n, names) == m
    requires Walk(t, Go(t, n, names[0]), names[1..]) == m <==> Leads(t, Go(t, n, names[0]), names[1..], m)
    ensures Leads(t, n, names, m)
  {
    var c := names[0];
    Rest(names);
    if Go(t, n, c) == 0 {
      WalkFails(t, names[1..]);
    } else {
      UpAgain(t, root, n, c);
      ChildNamed(t, n, c, 0);
    }
  }

  /** A lookup of a canonical path finds a node exactly when the names lead to it. */
  lemma FindExactly(t: Tree, root: nat, any: nat, names: seq<string>, m: nat)
    requires TreeOk(t, root) && Distinct(t) && AllNamed(names) && m in t
    ensures Find(t, root, any, Render(names)) == m <==> Leads(t, root, names, m)
  {
    hide TreeOk, Distinct, Walk, Comps, Leads;
    CompsRender(names);
    WalkExactly(t, root, root, names, m);
  }

  /** The last step of a walk by names: where it came from and by what name are written in the node. */
  lemma LastStep(t: Tree, root: nat, cs: seq<string>)
    requires TreeOk(t, root) && AllNamed(cs) && cs != [] && Walk(t, root, cs) != 0
    ensures var n, up := Walk(t, root, cs), cs[..|cs| - 1];
            && n in t && t[n].name == cs[|cs| - 1] && t[n].parent == Walk(t, root, up) != 0 && AllNamed(up)
  {
    hide Walk, TreeOk;
    var up, c := cs[..|cs| - 1], cs[|cs| - 1];
    assert cs == up + [c];
    Names(cs, |cs| - 1);
    WalkOne(t, root, up, c);
    var m := Walk(t, root, up);
    UpAgain(t, root, m, c);
    ChildNamed(t, m, c, 0);
  }

  /** Different rows of names lead from the root to different nodes. */
  lemma {:induction false} WalkInjective(t: Tree, root: nat, cs: seq<string>, ds: seq<string>)
    requires TreeOk(t, root) && AllNamed(cs) && AllNamed(ds) && Walk(t, root, cs) == Walk(t, root, ds) != 0
    ensures cs == ds
    decreases |cs|
  {
    hide Walk, TreeOk;
    RootStays(t, root);
    if cs != [] {
      LastStep(t, root, cs);
    }
    if ds != [] {
      LastStep(t, root, ds);
    }
    if cs != [] && ds != [] {
      WalkInjective(t, root, cs[..|cs| - 1], ds[..|ds| - 1]);
      assert cs == cs[..|cs| - 1] + [cs[|cs| - 1]] && ds == ds[..|ds| - 1] + [ds[|ds| - 1]];
    }
  }

  /** Every component on the way is looked up in a directory, and the names it leaves on the stack lead to a node. */
  ghost predicate Passable(t: Tree, root: nat, stack: seq<string>, cs: seq<string>)
    decreases |cs|
  {
    var n := Walk(t, root, stack);
    n in t && (cs != [] ==> t[n].directory && Passable(t, root, FullStep(stack, cs[0]), cs[1..]))
  }

  lemma StepPasses(t: Tree, root: nat, stack: seq<string>, n: nat, c: string)
    requires TreeOk(t, root) && Tracks(t, root, stack, n) && c != "" && '/' !in c && n in t && t[n].directory
    requires Walk(t, root, FullStep(stack, c)) in t
    ensures Go(t, n, c) == Walk(t, root, FullStep(stack, c)) && Tracks(t, root, FullStep(stack, c), Go(t, n, c))
  {
    hide Walk, TreeOk;
    NoNull(t, root);
    if Named(c) {
      WalkOne(t, root, stack, c);
    } else if c == ".." && t[n].parent != 0 {
      UpIsNode(t, root, n);
    }
    StepTracks(t, root, stack, n, c);
  }

  lemma UpIsNode(t: Tree, root: nat, n: nat)
    requires TreeOk(t, root) && n in t && t[n].parent != 0
    ensures t[n].parent in t
  {}

  lemma {:induction false} WalkPasses(t: Tree, root: nat, stack: seq<string>, n: nat, cs: seq<string>)
    requires TreeOk(t, root) && Tracks(t, root, stack, n)
    requires forall i :: 0 <= i < |cs| ==> cs[i] != "" && '/' !in cs[i]
    ensures Passable(t, root, stack, cs) <==> Walk(t, n, cs) in t
    decreases |cs|
  {
    hide FullStep, TreeOk;
    NoNull(t, root);
    if cs != [] {
      var c, up := cs[0], FullStep(stack, cs[0]);
      if Go(t, n, c) != 0 {
        StepTracks(t, root, stack, n, c);
        WalkPasses(t, root, up, Go(t, n, c), cs[1..]);
      } else {
        WalkFails(t, cs[1..]);
        if n in t && t[n].directory && Walk(t, root, up) in t {
          StepPasses(t, root, stack, n, c);
        }
      }
    }
  }

  /** A lookup fails exactly when some component on the way is not looked up in a directory or names nothing there. */
  lemma FoundExactly(t: Tree, root: nat, cwd: string, base: nat, input: string)
    requires TreeOk(t, root) && Walk(t, root, Comps(cwd)) == base != 0 && input != ""
    ensures Find(t, root, base, input) in t <==>
            Passable(t, root, if input[0] == '/' then [] else FullResolve([], Comps(cwd)), Comps(input))
  {
    hide Walk, FullResolve, Comps, TreeOk, Passable;
    RootStays(t, root);
    Slashless(cwd);
    Slashless(input);
    if input[0] == '/' {
      WalkPasses(t, root, [], root, Comps(input));
    } else {
      ResolveTracks(t, root, [], root, Comps(cwd));
      WalkPasses(t, root, FullResolve([], Comps(cwd)), base, Comps(input));
    }
  }

  /**
   * If the input leads somewhere from the working directory's node, the canonical path leads there from the root
   * exactly when the stack of 32 names ends up as deep as the input leads.
   */
  lemma SameMeaning(t: Tree, root: nat, cwd: string, base: nat, input: string, capacity: nat, any: nat)
    requires TreeOk(t, root) && Walk(t, root, Comps(cwd)) == base != 0
    requires Find(t, root, base, input) != 0
    requires Build(cwd, input, capacity).Some?
    ensures Find(t, root, any, Build(cwd, input, capacity).value) == Find(t, root, base, input) <==>
            |Stack(cwd, input)| == TrueDepth(cwd, input)
  {
    hide Walk, Comps, Stack, FullStack, Render, TreeOk, TrueDepth;
    StackTracks(t, root, cwd, base, input);
    StackNamed(cwd, input);
    CompsRender(Stack(cwd, input));
    StackIsFull(cwd, input);
    if Find(t, root, any, Build(cwd, input, capacity).value) == Find(t, root, base, input) {
      WalkInjective(t, root, Stack(cwd, input), FullStack(cwd, input));
    }
  }

  /** With 32 names on the stack a further one is lost: the path built leads to the parent of the node asked for. */
  lemma TooDeep(t: Tree, root: nat, stack: seq<string>, c: string)
    requires TreeOk(t, root) && AllNamed(stack) && |stack| == MAX_COMPONENTS && Named(c)
    requires Walk(t, root, stack + [c]) != 0
    ensures var deep := Join(stack + [c]);
            && Comps(deep) == stack + [c] && Stack("/", deep) == stack
            && Find(t, root, root, deep) != Find(t, root, root, Render(Stack("/", deep)))
            && Find(t, root, root, deep) in t
            && t[Find(t, root, root, deep)].parent == Find(t, root, root, Render(Stack("/", deep)))
  {
    hide Walk, Comps, TreeOk, Step;
    var deep := Join(stack + [c]);
    CompsJoin(stack + [c]);
    ResolveLast(stack, c);
    CompsRender(stack);
    WalkOne(t, root, stack, c);
    UpAgain(t, root, Walk(t, root, stack), c);
  }

  lemma {:induction false} ResolveConcat(stack: seq<string>, cs: seq<string>, ds: seq<string>)
    ensures Resolve(stack, cs + ds) == Resolve(Resolve(stack, cs), ds)
    decreases |cs|
  {
    hide Step;
    if cs == [] {
      assert cs + ds == ds;
    } else {
      assert (cs + ds)[1..] == cs[1..] + ds;
      ResolveConcat(Step(stack, cs[0]), cs[1..], ds);
    }
  }

  lemma ResolveLast(cs: seq<string>, c: string)
    requires AllNamed(cs) && |cs| == MAX_COMPONENTS && Named(c)
    ensures Resolve([], cs + [c]) == cs
  {
    ResolveConcat([], cs, [c]);
    ResolveNames([], cs);
    assert [] + cs == cs;
    assert Resolve(cs, [c]) == Resolve(Step(cs, c), []);
  }

  // ---- the loops ----

  /** The scan for the end of a component, from index i of the path on. */
  method ScanComponent(path: string, start: nat) returns (i: nat)
    requires start < |path| && path[start] != '/'
    ensures start < i <= |path| && path[start..i] == path[start..][..CompLen(path[start..])]
    ensures path[i..] == path[start..][CompLen(path[start..])..]
  {
    i := start;
    while i < |path| && path[i] != '/'
      invariant start <= i <= |path| && CompLen(path[start..]) == (i - start) + CompLen(path[i..])
    {
      CompLenStep(path, i);
      i := i + 1;
    }
  }

  lemma CompLenStep(path: string, i: nat)
    requires i < |path| && path[i] != '/'
    ensures CompLen(path[i..]) == 1 + CompLen(path[i + 1..])
  {
    assert path[i..][1..] == path[i + 1..];
  }

  lemma SlashStep(path: string, i: nat)
    requires i < |path| && path[i] == '/'
    ensures Comps(path[i..]) == Comps(path[i + 1..])
  {
    assert path[i..][1..] == path[i + 1..];
  }

  /** The parsing loop vfs_build_path runs over the working directory and over the input. */
  method Parse(path: string, start: seq<string>) returns (stack: seq<string>)
    ensures stack == Resolve(start, Comps(path))
  {
    stack := start;
    var i := 0;
    assert path[0..] == path;
    while i < |path|
      invariant 0 <= i <= |path| && Resolve(start, Comps(path)) == Resolve(stack, Comps(path[i..]))
    {
      hide Step;
      while i < |path| && path[i] == '/'
        invariant 0 <= i <= |path| && Resolve(start, Comps(path)) == Resolve(stack, Comps(path[i..]))
      {
        SlashStep(path, i);
        i := i + 1;
      }
      if i == |path| {
        break;
      }
      var j := ScanComponent(path, i);
      var c := path[i..j];
      assert Comps(path[i..]) == [c] + Comps(path[j..]);
      i := j;
      stack := Pushed(stack, c);
    }
  }

  /** The three ways a component changes the stack, as vfs_build_path tells them apart. */
  method Pushed(stack: seq<string>, c: string) returns (r: seq<string>)
    ensures r == Step(stack, c)
  {
    r := stack;
    if |c| == 1 && c[0] == '.' {
      return;
    }
    if |c| == 2 && c[0] == '.' && c[1] == '.' {
      if |stack| > 0 {
        r := stack[..|stack| - 1];
      }
      return;
    }
    if |stack| < MAX_COMPONENTS {
      r := stack + [c];
    }
  }

  /** vfs_build_path. */
  method BuildPath(cwd: string, input: string, capacity: nat) returns (r: Option<string>)
    ensures r == Build(cwd, input, capacity)
  {
    hide Resolve, Comps;
    if capacity < 2 {
      return None;
    }
    var stack: seq<string> := [];
    if input == "" || input[0] != '/' {
      stack := Parse(cwd, stack);
    }
    stack := Parse(input, stack);
    if stack == [] {
      return Some("/");
    }
    r := Output(stack, capacity);
  }

  /** The loop that writes the canonical path, refusing it when the buffer is too small. */
  method Output(stack: seq<string>, capacity: nat) returns (r: Option<string>)
    requires stack != []
    ensures r == if |Join(stack)| >= capacity then None else Some(Join(stack))
  {
    hide Join;
    var out, i := "", 0;
    assert stack[0..] == stack;
    while i < |stack|
      invariant 0 <= i <= |stack| && out + Join(stack[i..]) == Join(stack) && (i > 0 ==> |out| < capacity)
    {
      JoinStep(stack, i);
      if |out| + 1 + |stack[i]| >= capacity {
        return None;
      }
      assert out + ("/" + stack[i] + Join(stack[i + 1..])) == out + "/" + stack[i] + Join(stack[i + 1..]);
      out := out + "/" + stack[i];
      i := i + 1;
    }
    JoinEnd(stack, out);
    r := Some(out);
  }

  lemma JoinStep(stack: seq<string>, i: nat)
    requires i < |stack|
    ensures Join(stack[i..]) == "/" + stack[i] + Join(stack[i + 1..])
  {
    assert stack[i..][1..] == stack[i + 1..];
  }

  lemma JoinEnd(stack: seq<string>, out: string)
    ensures out + Join(stack[|stack|..]) == out
  {}

  /** find_child: the sibling list is searched in order. */
  method FindChild(t: Tree, n: nat, name: string) returns (c: nat)
    requires 0 !in t && n in t && forall i :: 0 <= i < |t[n].children| ==> t[n].children[i] in t
    ensures c == ChildFrom(t, n, name, 0) && FirstNamed(t, n, name, 0, c)
  {
    ChildExactly(t, n, name, 0);
    hide FirstNamed;
    var i := 0;
    while i < |t[n].children|
      invariant 0 <= i <= |t[n].children| && ChildFrom(t, n, name, 0) == ChildFrom(t, n, name, i)
    {
      if t[t[n].children[i]].name == name {
        return t[n].children[i];
      }
      i := i + 1;
    }
    c := 0;
  }

  /** One component of vfs_find_relative's loop. */
  method GoTo(t: Tree, root: nat, n: nat, c: string) returns (r: nat)
    requires TreeOk(t, root) && n in t
    ensures r == Go(t, n, c) && (r != 0 ==> r in t)
  {
    if !t[n].directory {
      return 0;
    }
    if |c| == 1 && c[0] == '.' {
      return n;
    }
    if |c| == 2 && c[0] == '.' && c[1] == '.' {
      return if t[n].parent != 0 then t[n].parent else n;
    }
    forall i | 0 <= i < |t[n].children| ensures t[n].children[i] in t { assert ChildOk(t, n, i); }
    r := FindChild(t, n, c);
  }

  /** vfs_find_relative. */
  method FindRelative(t: Tree, root: nat, base: nat, path: string) returns (r: nat)
    requires TreeOk(t, root) && (base != 0 ==> base in t)
    ensures r == Find(t, root, base, path)
  {
    hide TreeOk, Go;
    if path == "" {
      return 0;
    }
    RootStays(t, root);
    NoNull(t, root);
    var current := if path[0] == '/' || base == 0 then root else base;
    ghost var start := current;
    var i := 0;
    assert path[0..] == path;
    if path[i] == '/' {
      SlashStep(path, i);
      i := 1;
    }
    while i < |path|
      invariant 0 <= i <= |path| && current in t && Walk(t, start, Comps(path)) == Walk(t, current, Comps(path[i..]))
    {
      while i < |path| && path[i] == '/'
        invariant 0 <= i <= |path| && Walk(t, start, Comps(path)) == Walk(t, current, Comps(path[i..]))
      {
        SlashStep(path, i);
        i := i + 1;
      }
      if i == |path| {
        break;
      }
      var j := ScanComponent(path, i);
      assert Comps(path[i..]) == [path[i..j]] + Comps(path[j..]);
      var next := GoTo(t, root, current, path[i..j]);
      if next == 0 {
        WalkFails(t, Comps(path[j..]));
        return 0;
      }
      current := next;
      i := j;
    }
    r := current;
  }
}
