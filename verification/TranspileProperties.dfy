/** Properties of the transpiler: what each kind of node contributes to the
    output, that the iterator stack is restored after every block, that only
    the innermost active iterator matters, how an unknown node type aborts
    the walk, and the fragments rendered for typical templates. */
module TranspileProperties {
  import opened Wrappers
  import opened Strings
  import opened TwigTranspile

  /** The fragments a node list emits from an empty buffer under `stack`. */
  function Emitted(nodes: seq<Node>, stack: seq<string>): Result<seq<string>, string> {
    match Program(nodes, Transpiler([], stack))
    case Success(t) => Success(t.buffer)
    case Failure(e) => Failure(e)
  }

  /** `r` with `prefix` put in front of its buffer and its stack replaced by `stack`. */
  function Reframe(r: Result<Transpiler, string>, prefix: seq<string>, stack: seq<string>): Result<Transpiler, string> {
    match r
    case Success(t) => Success(Transpiler(prefix + t.buffer, stack))
    case Failure(e) => Failure(e)
  }

  /** Fragments of a block: `open`, the children's fragments, the empty
      fragment of the null child result, `close`; a child failure is the
      block's failure. */
  function Wrap(inner: Result<seq<string>, string>, open: string, close: string): Result<seq<string>, string> {
    match inner
    case Success(f) => Success([open] + f + ["", close])
    case Failure(e) => Failure(e)
  }

  // -----------------------------------------------------------------------
  // Scope resolution

  /** The rules for rewriting a variable name, with `str_replace` stated as
      `implode(t., explode(this., name))`. */
  lemma ResolveNameRules(name: string, stack: seq<string>)
    ensures !Active(stack) ==> ResolveName(name, stack) == name
    ensures Active(stack) && name == Last(stack) ==> ResolveName(name, stack) == LoopIndex
    ensures Active(stack) && name != Last(stack) && name == "this" ==> ResolveName(name, stack) == Last(stack)
    ensures Active(stack) && name != Last(stack) && name != "this" ==>
              ResolveName(name, stack) == Implode(Last(stack) + ".", Explode(name, "this."))
    ensures Active(stack) && name != Last(stack) && name != "this" && !Contains(name, "this.") ==>
              ResolveName(name, stack) == name
  {
    if Active(stack) {
      var end := Last(stack);
      if name == end {
        LoopIndexHasNoThis();
      } else if name != "this" {
        ReplaceAllIsImplodeExplode(name, "this.", end + ".");
        if !Contains(name, "this.") {
          ExplodeSingle(name, "this.");
        }
      }
    }
  }

  lemma LoopIndexHasNoThis()
    ensures !Contains(LoopIndex, "this.")
  {
    ContainsFirstChar(LoopIndex, "this.");
    assert 't' !in LoopIndex;
  }

  /** Name resolution looks only at the innermost active iterator. */
  lemma ResolveNameTopOnly(name: string, s: seq<string>, s2: seq<string>)
    requires ActiveTop(s) == ActiveTop(s2)
    ensures ResolveName(name, s) == ResolveName(name, s2)
  {
    assert Active(s) <==> ActiveTop(s).Some?;
    assert Active(s2) <==> ActiveTop(s2).Some?;
  }

  /** Every `this.` in a name is replaced, not only a leading one:
      under the loop variable `x`, `a.this.b.this.c` becomes `a.x.b.x.c`. */
  lemma ReplacesEveryThis(a: string, b: string, c: string, v: string)
    requires 't' !in a && 't' !in b && 't' !in c
    requires |v| == 1 && v != "0"
    ensures ResolveName(a + ("this." + (b + ("this." + c))), [v]) == a + (v + "." + (b + (v + "." + c)))
  {
    var name := a + ("this." + (b + ("this." + c)));
    assert name[|a|..|a| + 5] == "this.";
    assert OccursAt(name, "this.", |a|);
    assert |name| > 1;
    assert Last([v]) == v;
    ReplaceTwice(a, b, c, "this.", v + ".");
  }

  /** Two occurrences of `p` separated by text that cannot start `p` are
      both replaced. */
  lemma ReplaceTwice(x: string, y: string, z: string, p: string, r: string)
    requires |p| > 0 && p[0] !in x && p[0] !in y && p[0] !in z
    ensures ReplaceAll(x + (p + (y + (p + z))), p, r) == x + (r + (y + (r + z)))
  {
    ReplaceAllSkipAll(x, p + (y + (p + z)), p, r);
    ReplaceAllHit(y + (p + z), p, r);
    ReplaceAllSkipAll(y, p + z, p, r);
    ReplaceAllHit(z, p, r);
    ReplaceAllSkipAll(z, "", p, r);
    assert z + "" == z;
  }

  // -----------------------------------------------------------------------
  // The loop variable of an `each` block

  /** The index just after the last `.` of `s`, or 0 when `s` has no dot,
      found by scanning from the end. */
  function AfterLastDot(s: string): (k: nat)
    ensures k <= |s|
    ensures k == 0 || s[k - 1] == '.'
    ensures '.' !in s[k..]
  {
    if |s| == 0 then 0
    else if s[|s| - 1] == '.' then |s|
    else
      var k := AfterLastDot(s[..|s| - 1]);
      assert s[k..] == s[..|s| - 1][k..] + [s[|s| - 1]];
      k
  }

  /** The last segment of `explode('.', arg)` is the text after the last dot. */
  lemma LastSegmentAfterLastDot(arg: string)
    ensures LastSegment(arg) == arg[AfterLastDot(arg)..]
  {
    var k := AfterLastDot(arg);
    var seg := LastSegment(arg);
    var j: int;
    if Contains(arg, ".") {
      var pieces := Explode(arg, ".");
      ImplodeExplode(arg, ".");
      ExplodePiecesFree(arg, ".");
      ExplodeSingle(arg, ".");
      ImplodeSnoc(".", pieces);
      var front := Implode(".", pieces[..|pieces| - 1]);
      assert arg == front + "." + seg;
      ContainsChar(seg, '.');
      j := |front| + 1;
      assert arg[j..] == seg;
      assert arg[j - 1] == '.';
    } else {
      j := 0;
      ContainsChar(arg, '.');
    }
    // Both j and k are the start of a dot-free suffix preceded by a dot or
    // the start of the string, so they are equal.
    assert '.' !in arg[j..];
  }

  /** The loop variable is the character just after the last dot of the
      path (the first character of the whole path when it has no dot), or
      "" when the path is empty or ends in a dot. */
  lemma IteratorNameSpec(arg: string)
    ensures AfterLastDot(arg) == |arg| ==> IteratorName(arg) == ""
    ensures AfterLastDot(arg) < |arg| ==> IteratorName(arg) == [arg[AfterLastDot(arg)]]
    ensures '.' !in arg && |arg| > 0 ==> IteratorName(arg) == [arg[0]]
  {
    LastSegmentAfterLastDot(arg);
    var k := AfterLastDot(arg);
    if k < |arg| {
      assert arg[k..][..1] == [arg[k]];
    }
  }

  /** A dot followed by dot-free text ends the path's last dot. */
  lemma {:induction false} AfterLastDotSuffix(x: string, y: string)
    requires '.' !in y
    ensures AfterLastDot(x + "." + y) == |x| + 1
    decreases |y|
  {
    var s := x + "." + y;
    if |y| == 0 {
      assert s[|s| - 1] == '.';
      assert s[..|s| - 1] == x;
    } else {
      var y' := y[..|y| - 1];
      assert s[|s| - 1] == y[|y| - 1];
      assert s[..|s| - 1] == x + "." + y';
      assert forall ch :: ch in y' ==> ch in y;
      AfterLastDotSuffix(x, y');
    }
  }

  /** `each` over `x.y`, where `y` is a non-empty dot-free segment, loops
      over the first character of `y` (`properties.items` gives `i`). */
  lemma IteratorNameOfPath(x: string, y: string)
    requires '.' !in y && |y| > 0
    ensures IteratorName(x + "." + y) == [y[0]]
  {
    AfterLastDotSuffix(x, y);
    IteratorNameSpec(x + "." + y);
  }

  // -----------------------------------------------------------------------
  // Congruence: the walk does not look at the buffer it appends to, and of
  // the stack it looks only at the innermost active iterator.

  lemma {:induction false} ProgramCongruence(nodes: seq<Node>, b: seq<string>, c: seq<string>, s: seq<string>, s2: seq<string>)
    requires ActiveTop(s) == ActiveTop(s2)
    ensures Program(nodes, Transpiler(b + c, s)) == Reframe(Program(nodes, Transpiler(c, s2)), b, s)
    decreases SizeAll(nodes), 3
  {
    if |nodes| > 0 {
      DispatchCongruence(nodes[0], b, c, s, s2);
      var r2 := Dispatch(nodes[0], Transpiler(c, s2));
      if r2.Success? {
        ProgramCongruence(nodes[1..], b, r2.value.buffer, s, s2);
      }
    }
  }

  lemma {:induction false} DispatchCongruence(node: Node, b: seq<string>, c: seq<string>, s: seq<string>, s2: seq<string>)
    requires ActiveTop(s) == ActiveTop(s2)
    ensures Dispatch(node, Transpiler(b + c, s)) == Reframe(Dispatch(node, Transpiler(c, s2)), b, s)
    decreases Size(node), 2
  {
    match node
    case Text(value) =>
      assert (b + c) + [value] == b + (c + [value]);
    case Var(name) =>
      ResolveNameTopOnly(name, s, s2);
      var frag := "{{" + ResolveName(name, s) + "}}";
      assert (b + c) + [frag] == b + (c + [frag]);
    case Other(_) =>
    case Block(name, args, kids) =>
      assert Dispatch(node, Transpiler(b + c, s)) == BlockNode(name, args, kids, Transpiler(b + c, s));
      assert Dispatch(node, Transpiler(c, s2)) == BlockNode(name, args, kids, Transpiler(c, s2));
      if name == "if" || name == "unless" {
        ConditionalCongruence(name, args, kids, b, c, s, s2);
      } else if name == "each" && args.Some? {
        EachCongruence(args.value, kids, b, c, s, s2);
        assert BlockNode(name, args, kids, Transpiler(b + c, s)) == EachBlock(args, kids, Transpiler(b + c, s));
        assert BlockNode(name, args, kids, Transpiler(c, s2)) == EachBlock(args, kids, Transpiler(c, s2));
      } else {
        assert BlockNode(name, args, kids, Transpiler(b + c, s)) == Success(Transpiler(b + c, s));
        assert BlockNode(name, args, kids, Transpiler(c, s2)) == Success(Transpiler(c, s2));
      }
  }

  lemma {:induction false} ConditionalCongruence(name: string, args: Option<string>, kids: seq<Node>, b: seq<string>, c: seq<string>, s: seq<string>, s2: seq<string>)
    requires name == "if" || name == "unless"
    requires ActiveTop(s) == ActiveTop(s2)
    ensures BlockNode(name, args, kids, Transpiler(b + c, s)) == Reframe(BlockNode(name, args, kids, Transpiler(c, s2)), b, s)
    decreases SizeAll(kids) + 1, 1
  {
    var open := if name == "if" then "{% if " + ArgText(args) + " %}" else "{% if not " + ArgText(args) + " %}";
    assert (b + c) + [open] == b + (c + [open]);
    ProgramCongruence(kids, b, c + [open], s, s2);
    var r1 := Program(kids, Transpiler(b + c + [open], s));
    var r2 := Program(kids, Transpiler(c + [open], s2));
    if name == "if" {
      assert BlockNode(name, args, kids, Transpiler(b + c, s)) == IfBlock(args, kids, Transpiler(b + c, s));
      assert BlockNode(name, args, kids, Transpiler(c, s2)) == IfBlock(args, kids, Transpiler(c, s2));
    } else {
      assert BlockNode(name, args, kids, Transpiler(b + c, s)) == UnlessBlock(args, kids, Transpiler(b + c, s));
      assert BlockNode(name, args, kids, Transpiler(c, s2)) == UnlessBlock(args, kids, Transpiler(c, s2));
    }
    if r2.Success? {
      assert r1 == Success(Transpiler(b + r2.value.buffer, s));
      assert (b + r2.value.buffer) + [""] + ["{% endif %}"] == b + (r2.value.buffer + [""] + ["{% endif %}"]);
    }
  }

  lemma {:induction false} EachCongruence(arg: string, kids: seq<Node>, b: seq<string>, c: seq<string>, s: seq<string>, s2: seq<string>)
    requires ActiveTop(s) == ActiveTop(s2)
    ensures EachBlock(Some(arg), kids, Transpiler(b + c, s)) == Reframe(EachBlock(Some(arg), kids, Transpiler(c, s2)), b, s)
    decreases SizeAll(kids) + 1, 1
  {
    var current := IteratorName(arg);
    var open := "{% for " + current + " in " + arg + " %}";
    assert (b + c) + [open] == b + (c + [open]);
    assert ActiveTop(s + [current]) == ActiveTop(s2 + [current]);
    ProgramCongruence(kids, b, c + [open], s + [current], s2 + [current]);
    var r2 := Program(kids, Transpiler(c + [open], s2 + [current]));
    if r2.Success? {
      assert Program(kids, Transpiler(b + c + [open], s + [current])) == Success(Transpiler(b + r2.value.buffer, s + [current]));
      assert (b + r2.value.buffer) + [""] + ["{% endfor %}"] == b + (r2.value.buffer + [""] + ["{% endfor %}"]);
      assert Pop(s + [current]) == s;
      assert Pop(s2 + [current]) == s2;
    }
  }

  /** Walking a node list appends exactly its fragments to whatever the buffer
      already holds and restores the iterator stack, or fails as a whole. */
  lemma ProgramFrame(nodes: seq<Node>, t: Transpiler)
    ensures Program(nodes, t).Success? <==> Emitted(nodes, t.iterators).Success?
    ensures Program(nodes, t).Success? ==>
              Program(nodes, t).value == Transpiler(t.buffer + Emitted(nodes, t.iterators).value, t.iterators)
    ensures Program(nodes, t).Failure? ==> Program(nodes, t).error == Emitted(nodes, t.iterators).error
  {
    ProgramCongruence(nodes, t.buffer, [], t.iterators, t.iterators);
    assert t.buffer + [] == t.buffer;
  }

  /** Only the innermost active iterator influences the output; an empty
      stack, a "" top and a "0" top all behave alike. */
  lemma EmittedTopOnly(nodes: seq<Node>, s: seq<string>, s2: seq<string>)
    requires ActiveTop(s) == ActiveTop(s2)
    ensures Emitted(nodes, s) == Emitted(nodes, s2)
  {
    var empty: seq<string> := [];
    ProgramCongruence(nodes, empty, empty, s, s2);
    assert empty + empty == empty;
    if Program(nodes, Transpiler(empty, s2)).Success? {
      var f := Program(nodes, Transpiler(empty, s2)).value.buffer;
      assert empty + f == f;
    }
  }

  // -----------------------------------------------------------------------
  // Composition of node lists

  /** A one-node list is walked by dispatching its node. */
  lemma ProgramSingle(n: Node, t: Transpiler)
    ensures Program([n], t) == Dispatch(n, t)
  {
    assert [n][0] == n;
    assert [n][1..] == [];
  }

  lemma {:induction false} ProgramAppend(a: seq<Node>, b: seq<Node>, t: Transpiler)
    ensures Program(a + b, t) ==
              match Program(a, t)
              case Success(t1) => Program(b, t1)
              case Failure(e) => Failure(e)
    decreases |a|
  {
    if |a| == 0 {
      assert a + b == b;
    } else {
      assert (a + b)[0] == a[0];
      assert (a + b)[1..] == a[1..] + b;
      var r := Dispatch(a[0], t);
      if r.Success? {
        ProgramAppend(a[1..], b, r.value);
      }
    }
  }

  /** A node list's fragments are those of its first part followed by those
      of its second part, both under the same stack; the first failure wins. */
  lemma EmittedAppend(a: seq<Node>, b: seq<Node>, s: seq<string>)
    ensures Emitted(a, s).Failure? ==> Emitted(a + b, s) == Emitted(a, s)
    ensures Emitted(a, s).Success? && Emitted(b, s).Failure? ==> Emitted(a + b, s) == Emitted(b, s)
    ensures Emitted(a, s).Success? && Emitted(b, s).Success? ==>
              Emitted(a + b, s) == Success(Emitted(a, s).value + Emitted(b, s).value)
  {
    var t := Transpiler([], s);
    ProgramAppend(a, b, t);
    ProgramFrame(a, t);
    if Emitted(a, s).Success? {
      var t1 := Program(a, t).value;
      ProgramFrame(b, t1);
    }
  }

  /** Once the nodes before it succeed, a node of an unknown type makes the
      whole walk fail with a message naming that type. */
  lemma UnknownNodeTypeAborts(pre: seq<Node>, kind: string, post: seq<Node>, s: seq<string>)
    requires Emitted(pre, s).Success?
    ensures Emitted(pre + [Other(kind)] + post, s) == Failure(UnknownNodeTypePrefix + kind)
  {
    ProgramSingle(Other(kind), Transpiler([], s));
    EmittedAppend([Other(kind)], post, s);
    EmittedAppend(pre, [Other(kind)] + post, s);
    assert pre + [Other(kind)] + post == pre + ([Other(kind)] + post);
  }

  /** After any node, in particular after a nested `each` has closed, a
      following variable is resolved under the same stack as before it. */
  lemma ScopeRestoredAfterNode(n: Node, name: string, s: seq<string>)
    requires Emitted([n], s).Success?
    ensures Emitted([n, Var(name)], s) == Success(Emitted([n], s).value + ["{{" + ResolveName(name, s) + "}}"])
  {
    EmitsVar(name, s);
    EmittedAppend([n], [Var(name)], s);
    assert [n] + [Var(name)] == [n, Var(name)];
  }

  // -----------------------------------------------------------------------
  // What each kind of node emits

  lemma EmitsText(value: string, s: seq<string>)
    ensures Emitted([Text(value)], s) == Success([value])
  {
    var t := Transpiler([], s);
    ProgramSingle(Text(value), t);
    assert Dispatch(Text(value), t) == Success(Content(value, t));
    assert t.buffer + [value] == [value];
    assert Program([Text(value)], t) == Success(Transpiler([value], s));
  }

  lemma EmitsVar(name: string, s: seq<string>)
    ensures Emitted([Var(name)], s) == Success(["{{" + ResolveName(name, s) + "}}"])
  {
    var t := Transpiler([], s);
    var frag := "{{" + ResolveName(name, s) + "}}";
    ProgramSingle(Var(name), t);
    assert t.buffer + [frag] == [frag];
  }

  lemma EmitsIf(args: Option<string>, kids: seq<Node>, s: seq<string>)
    ensures Emitted([Block("if", args, kids)], s) ==
              Wrap(Emitted(kids, s), "{% if " + ArgText(args) + " %}", "{% endif %}")
  {
    var t := Transpiler([], s);
    ProgramSingle(Block("if", args, kids), t);
    assert Dispatch(Block("if", args, kids), t) == IfBlock(args, kids, t);
    var open := "{% if " + ArgText(args) + " %}";
    assert t.buffer + [open] == [open];
    ProgramFrame(kids, Transpiler([open], s));
    var inner := Emitted(kids, s);
    if inner.Success? {
      assert [open] + inner.value + [""] + ["{% endif %}"] == [open] + inner.value + ["", "{% endif %}"];
    }
  }

  lemma EmitsUnless(args: Option<string>, kids: seq<Node>, s: seq<string>)
    ensures Emitted([Block("unless", args, kids)], s) ==
              Wrap(Emitted(kids, s), "{% if not " + ArgText(args) + " %}", "{% endif %}")
  {
    var t := Transpiler([], s);
    ProgramSingle(Block("unless", args, kids), t);
    assert Dispatch(Block("unless", args, kids), t) == UnlessBlock(args, kids, t);
    var open := "{% if not " + ArgText(args) + " %}";
    assert t.buffer + [open] == [open];
    ProgramFrame(kids, Transpiler([open], s));
    var inner := Emitted(kids, s);
    if inner.Success? {
      assert [open] + inner.value + [""] + ["{% endif %}"] == [open] + inner.value + ["", "{% endif %}"];
    }
  }

  /** An `each` with a path emits its loop header over the original path and
      walks its children with the loop variable pushed. */
  lemma EmitsEach(arg: string, kids: seq<Node>, s: seq<string>)
    ensures var c := IteratorName(arg);
            Emitted([Block("each", Some(arg), kids)], s) ==
              Wrap(Emitted(kids, s + [c]), "{% for " + c + " in " + arg + " %}", "{% endfor %}")
  {
    var t := Transpiler([], s);
    var c := IteratorName(arg);
    ProgramSingle(Block("each", Some(arg), kids), t);
    assert Dispatch(Block("each", Some(arg), kids), t) == EachBlock(Some(arg), kids, t);
    var open := "{% for " + c + " in " + arg + " %}";
    assert t.buffer + [open] == [open];
    ProgramFrame(kids, Transpiler([open], s + [c]));
    var inner := Emitted(kids, s + [c]);
    if inner.Success? {
      assert [open] + inner.value + [""] + ["{% endfor %}"] == [open] + inner.value + ["", "{% endfor %}"];
    }
    assert Pop(s + [c]) == s;
  }

  /** An `each` without a path emits nothing and leaves the stack as it was,
      whatever its children. */
  lemma EmitsNothingForEachWithoutArgs(kids: seq<Node>, t: Transpiler)
    ensures Program([Block("each", None, kids)], t) == Success(t)
  {
    ProgramSingle(Block("each", None, kids), t);
    assert Dispatch(Block("each", None, kids), t) == EachBlock(None, kids, t);
  }

  /** A block with any other name emits nothing and raises no error, even
      when its children hold unknown node types. */
  lemma IgnoresUnknownBlock(name: string, args: Option<string>, kids: seq<Node>, t: Transpiler)
    requires name != "if" && name != "each" && name != "unless"
    ensures Program([Block(name, args, kids)], t) == Success(t)
  {
    ProgramSingle(Block(name, args, kids), t);
    assert Dispatch(Block(name, args, kids), t) == BlockNode(name, args, kids, t);
  }

  // -----------------------------------------------------------------------
  // Render

  /** Text nodes for each of the given strings. */
  function Texts(values: seq<string>): (nodes: seq<Node>)
    ensures |nodes| == |values|
    ensures forall i :: 0 <= i < |values| ==> nodes[i] == Text(values[i])
  {
    if |values| == 0 then [] else [Text(values[0])] + Texts(values[1..])
  }

  /** Text passes through unchanged, so a template of text nodes renders to
      those texts joined by single spaces. */
  lemma {:induction false} RenderTexts(values: seq<string>)
    ensures Emitted(Texts(values), []) == Success(values)
    ensures Render(Texts(values)) == Success(Implode(" ", values))
  {
    if |values| > 0 {
      RenderTexts(values[1..]);
      assert Texts(values) == [Text(values[0])] + Texts(values[1..]);
      EmitsText(values[0], []);
      EmittedAppend([Text(values[0])], Texts(values[1..]), []);
      assert values == [values[0]] + values[1..];
    }
    RenderJoinsFragments(Texts(values));
  }

  /** Rendering joins the emitted fragments with single spaces, or fails
      as a whole. */
  lemma RenderJoinsFragments(nodes: seq<Node>)
    ensures Emitted(nodes, []).Success? ==> Render(nodes) == Success(Implode(" ", Emitted(nodes, []).value))
    ensures Emitted(nodes, []).Failure? ==> Render(nodes) == Failure(Emitted(nodes, []).error)
  {
  }

  /** Rendering a concatenated template: the two renderings joined by one
      space, or just one of them when the other part emits no fragment at
      all; the first failure wins. */
  lemma RenderAppend(a: seq<Node>, b: seq<Node>)
    ensures Emitted(a, []).Failure? ==> Render(a + b) == Failure(Emitted(a, []).error)
    ensures Emitted(a, []).Success? && Emitted(b, []).Failure? ==> Render(a + b) == Failure(Emitted(b, []).error)
    ensures Emitted(a, []).Success? && Emitted(b, []).Success? && |Emitted(a, []).value| == 0 ==>
              Render(a + b) == Render(b)
    ensures Emitted(a, []).Success? && Emitted(b, []).Success? && |Emitted(b, []).value| == 0 ==>
              Render(a + b) == Render(a)
    ensures Emitted(a, []).Success? && Emitted(b, []).Success? &&
            |Emitted(a, []).value| > 0 && |Emitted(b, []).value| > 0 ==>
              Render(a + b) == Success(Render(a).value + " " + Render(b).value)
  {
    EmittedAppend(a, b, []);
    RenderJoinsFragments(a);
    RenderJoinsFragments(b);
    RenderJoinsFragments(a + b);
    if Emitted(a, []).Success? && Emitted(b, []).Success? {
      var fa, fb := Emitted(a, []).value, Emitted(b, []).value;
      if |fa| == 0 {
        assert fa + fb == fb;
      } else if |fb| == 0 {
        assert fa + fb == fa;
      } else {
        ImplodeJoin(" ", fa, fb);
      }
    }
  }

  /** A single text node renders to exactly its value. */
  lemma RenderSingleText(value: string)
    ensures Render([Text(value)]) == Success(value)
  {
    EmitsText(value, []);
    RenderJoinsFragments([Text(value)]);
  }

  /** With no iterator a variable renders as `{{name}}`, its name unchanged. */
  lemma RenderSingleVar(name: string)
    ensures Render([Var(name)]) == Success("{{" + name + "}}")
  {
    EmitsVar(name, []);
    RenderJoinsFragments([Var(name)]);
  }

  /** Renders one `each` block whose children emit `body`. */
  lemma RenderEach(arg: string, kids: seq<Node>, body: seq<string>)
    requires Emitted(kids, [IteratorName(arg)]) == Success(body)
    ensures Render([Block("each", Some(arg), kids)]) ==
              Success(Implode(" ", ["{% for " + IteratorName(arg) + " in " + arg + " %}"] + body + ["", "{% endfor %}"]))
  {
    var empty: seq<string> := [];
    assert empty + [IteratorName(arg)] == [IteratorName(arg)];
    EmitsEach(arg, kids, empty);
    RenderJoinsFragments([Block("each", Some(arg), kids)]);
  }

  /** `{{#each path}}{{this}}{{/each}}` loops the path's variable `c` over
      the path and prints `c` (`items` gives `{% for i in items %} {{i}}  {% endfor %}`). */
  lemma RenderEachThis(arg: string)
    requires Truthy(IteratorName(arg))
    ensures var c := IteratorName(arg);
            Render([Block("each", Some(arg), [Var("this")])]) ==
              Success("{% for " + c + " in " + arg + " %} {{" + c + "}}  {% endfor %}")
  {
    var c := IteratorName(arg);
    assert c != "this";
    ResolveNameRules("this", [c]);
    EmitsVar("this", [c]);
    RenderEach(arg, [Var("this")], ["{{" + c + "}}"]);
    var all := ["{% for " + c + " in " + arg + " %}", "{{" + c + "}}", "", "{% endfor %}"];
    assert ["{% for " + c + " in " + arg + " %}"] + ["{{" + c + "}}"] + ["", "{% endfor %}"] == all;
    ImplodeFour(all);
    JoinForShape(c, arg, c);
  }

  /** Inside `{{#each path}}` the loop variable's own name prints the loop
      index (`properties.items` with `{{i}}` gives `{{loop.index0}}`). */
  lemma RenderEachOwnName(arg: string)
    requires Truthy(IteratorName(arg))
    ensures var c := IteratorName(arg);
            Render([Block("each", Some(arg), [Var(c)])]) ==
              Success("{% for " + c + " in " + arg + " %} {{" + LoopIndex + "}}  {% endfor %}")
  {
    var c := IteratorName(arg);
    ResolveNameRules(c, [c]);
    EmitsVar(c, [c]);
    RenderEach(arg, [Var(c)], ["{{" + LoopIndex + "}}"]);
    var all := ["{% for " + c + " in " + arg + " %}", "{{" + LoopIndex + "}}", "", "{% endfor %}"];
    assert ["{% for " + c + " in " + arg + " %}"] + ["{{" + LoopIndex + "}}"] + ["", "{% endfor %}"] == all;
    ImplodeFour(all);
    JoinForShape(c, arg, LoopIndex);
  }

  /** Inside `{{#each items}}` the path's own name is not the loop variable
      (`i` is), so `{{items}}` is printed unchanged. */
  lemma PathNameInsideEachUnchanged(arg: string)
    requires '.' !in arg && |arg| >= 2 && arg != "this"
    ensures Emitted([Var(arg)], [IteratorName(arg)]) == Success(["{{" + arg + "}}"])
  {
    IteratorNameSpec(arg);
    var c := IteratorName(arg);
    assert Last([c]) == c;
    ContainsLastChar(arg, "this.");
    ResolveNameRules(arg, [c]);
    EmitsVar(arg, [c]);
  }

  /** The rendered text of a loop whose children emit one interpolation. */
  lemma JoinForShape(c: string, arg: string, x: string)
    ensures "{% for " + c + " in " + arg + " %}" + " " + ("{{" + x + "}}") + " " + "" + " " + "{% endfor %}"
            == "{% for " + c + " in " + arg + " %} {{" + x + "}}  {% endfor %}"
  {
    assert " %}" + " " + "{{" == " %} {{";
    assert "}}" + " " + "" + " " + "{% endfor %}" == "}}  {% endfor %}";
  }

  /** Nested loops: the inner `this` is the inner variable, and after the
      inner loop closes `this` is the outer variable again. */
  lemma EmitsNestedEach(outer: string, inner: string)
    requires Truthy(IteratorName(outer)) && Truthy(IteratorName(inner))
    ensures var o, i := IteratorName(outer), IteratorName(inner);
            Emitted([Block("each", Some(outer), [Block("each", Some(inner), [Var("this")]), Var("this")])], []) ==
              Success(["{% for " + o + " in " + outer + " %}",
                       "{% for " + i + " in " + inner + " %}", "{{" + i + "}}", "", "{% endfor %}",
                       "{{" + o + "}}", "", "{% endfor %}"])
  {
    var o, i := IteratorName(outer), IteratorName(inner);
    assert o != "this" && i != "this";
    var innerBlock := Block("each", Some(inner), [Var("this")]);
    ResolveNameRules("this", [o, i]);
    ResolveNameRules("this", [o]);
    EmitsVar("this", [o, i]);
    assert [o] + [i] == [o, i];
    EmitsEach(inner, [Var("this")], [o]);
    var innerOut := ["{% for " + i + " in " + inner + " %}", "{{" + i + "}}", "", "{% endfor %}"];
    assert ["{% for " + i + " in " + inner + " %}"] + ["{{" + i + "}}"] + ["", "{% endfor %}"] == innerOut;
    ScopeRestoredAfterNode(innerBlock, "this", [o]);
    assert Emitted([innerBlock], [o]) == Success(innerOut);
    var body := innerOut + ["{{" + o + "}}"];
    assert Emitted([innerBlock, Var("this")], [o]) == Success(body);
    var empty: seq<string> := [];
    assert empty + [o] == [o];
    EmitsEach(outer, [innerBlock, Var("this")], empty);
    var open := "{% for " + o + " in " + outer + " %}";
    assert [open] + body + ["", "{% endfor %}"] ==
           [open, "{% for " + i + " in " + inner + " %}", "{{" + i + "}}", "", "{% endfor %}",
            "{{" + o + "}}", "", "{% endfor %}"];
  }

  /** `{{#if cond}}text{{/if}}` wraps the text in a Twig conditional. */
  lemma RenderIf(cond: string, body: string)
    ensures Render([Block("if", Some(cond), [Text(body)])]) ==
              Success("{% if " + cond + " %} " + body + "  {% endif %}")
  {
    assert ArgText(Some(cond)) == cond;
    EmitsText(body, []);
    EmitsIf(Some(cond), [Text(body)], []);
    RenderJoinsFragments([Block("if", Some(cond), [Text(body)])]);
    var out := ["{% if " + cond + " %}", body, "", "{% endif %}"];
    assert ["{% if " + cond + " %}"] + [body] + ["", "{% endif %}"] == out;
    ImplodeFour(out);
    JoinIfShape("{% if ", cond, body);
  }

  /** `{{#unless cond}}text{{/unless}}` wraps the text in a Twig conditional
      on the negated condition. */
  lemma RenderUnless(cond: string, body: string)
    ensures Render([Block("unless", Some(cond), [Text(body)])]) ==
              Success("{% if not " + cond + " %} " + body + "  {% endif %}")
  {
    assert ArgText(Some(cond)) == cond;
    EmitsText(body, []);
    EmitsUnless(Some(cond), [Text(body)], []);
    RenderJoinsFragments([Block("unless", Some(cond), [Text(body)])]);
    var out := ["{% if not " + cond + " %}", body, "", "{% endif %}"];
    assert ["{% if not " + cond + " %}"] + [body] + ["", "{% endif %}"] == out;
    ImplodeFour(out);
    JoinIfShape("{% if not ", cond, body);
  }

  /** The rendered text of a conditional whose children emit one fragment. */
  lemma JoinIfShape(kw: string, a: string, b: string)
    ensures kw + a + " %}" + " " + b + " " + "" + " " + "{% endif %}" == kw + a + " %} " + b + "  {% endif %}"
  {
    assert " %}" + " " == " %} ";
    assert " " + "" + " " + "{% endif %}" == "  {% endif %}";
  }

  lemma ImplodeFour(parts: seq<string>)
    requires |parts| == 4
    ensures Implode(" ", parts) == parts[0] + " " + parts[1] + " " + parts[2] + " " + parts[3]
  {
    assert parts[1..][1..] == parts[2..];
    assert parts[2..][1..] == parts[3..];
    assert Implode(" ", parts[2..]) == parts[2] + " " + parts[3];
    assert Implode(" ", parts[1..]) == parts[1] + " " + (parts[2] + " " + parts[3]);
  }
}
