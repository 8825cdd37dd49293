/** The Handlebars-to-Twig transpiler: a walk over an already parsed
    Handlebars tree that appends Twig fragments to a flat buffer, keeping a
    stack of loop-iterator names for the `each` blocks it is inside.

    The PHP object's two mutable fields (`buffer` and `iterator`) are the
    state `Transpiler`, threaded through every handler; a PHP exception is a
    `Failure` carrying its message. */
module TwigTranspile {
  import opened Wrappers
  import opened Strings

  /** One node of the parsed Handlebars tree, tagged by its `type` field:
      `_t` is `Text`, `_v` is `Var`, `#` is `Block`, and every other tag is
      `Other`. `args` is absent when the parser set no arguments. */
  datatype Node =
    | Text(value: string)
    | Var(name: string)
    | Block(name: string, args: Option<string>, nodes: seq<Node>)
    | Other(kind: string)

  /** The transpiler's state: emitted fragments and the iterator stack
      (innermost iterator last). */
  datatype Transpiler = Transpiler(buffer: seq<string>, iterators: seq<string>)

  /** The Twig expression a loop variable's own name is rewritten to. */
  const LoopIndex: string := "loop.index0"

  /** The message prefix of the exception thrown for an unknown node type. */
  const UnknownNodeTypePrefix: string := "Unknown node type: "

  predicate IsUnknownNodeTypeError(e: string) {
    |UnknownNodeTypePrefix| <= |e| && e[..|UnknownNodeTypePrefix|] == UnknownNodeTypePrefix
  }

  /** `r` is `t` with fragments appended and the same iterator stack. */
  predicate Extends(t: Transpiler, r: Transpiler) {
    r.iterators == t.iterators && t.buffer <= r.buffer
  }

  /** The size of a tree, used to show that the walk terminates. */
  function Size(n: Node): (k: nat)
    ensures k >= 1
  {
    match n
    case Block(_, _, kids) => 1 + SizeAll(kids)
    case _ => 1
  }

  function SizeAll(ns: seq<Node>): nat
  {
    if |ns| == 0 then 0 else Size(ns[0]) + SizeAll(ns[1..])
  }

  // -----------------------------------------------------------------------
  // Scope resolution

  /** PHP truthiness of a string: "" and "0" are false. */
  predicate Truthy(s: string) {
    s != "" && s != "0"
  }

  /** `end($this->iterator)` is truthy: there is an innermost iterator and
      it is neither "" nor "0". */
  predicate Active(stack: seq<string>) {
    |stack| > 0 && Truthy(Last(stack))
  }

  /** The innermost iterator when it is active, the only part of the stack
      that name resolution looks at. */
  function ActiveTop(stack: seq<string>): Option<string> {
    if Active(stack) then Some(Last(stack)) else None
  }

  /** The name a variable reference is rewritten to under the iterator stack. */
  function ResolveName(name: string, stack: seq<string>): string {
    if !Active(stack) then name
    else
      var end := Last(stack);
      var n := if name == end then LoopIndex else name;
      if n == "this" then end
      else if Contains(n, "this.") then ReplaceAll(n, "this.", end + ".")
      else n
  }

  /** The last `.`-separated segment of an `each` path (the whole path when
      it has no dot). */
  function LastSegment(arg: string): string {
    if Contains(arg, ".") then Last(Explode(arg, ".")) else arg
  }

  /** The loop variable of an `each` block: the first character of the
      last segment of its path. */
  function IteratorName(arg: string): string {
    FirstChar(LastSegment(arg))
  }

  /** A PHP value concatenated into a string: an unset argument is null,
      which concatenates as "". */
  function ArgText(args: Option<string>): string {
    args.GetOr("")
  }

  function Emit(t: Transpiler, fragment: string): Transpiler {
    t.(buffer := t.buffer + [fragment])
  }

  /** Removes the innermost iterator (`array_pop`, a no-op on an empty stack). */
  function Pop(stack: seq<string>): seq<string> {
    if |stack| == 0 then stack else stack[..|stack| - 1]
  }

  // -----------------------------------------------------------------------
  // Handlers

  /** A text node passes through unchanged. */
  function Content(value: string, t: Transpiler): Transpiler {
    Emit(t, value)
  }

  /** A variable node becomes a Twig interpolation of its resolved name. */
  function Mustache(name: string, t: Transpiler): Transpiler {
    Emit(t, "{{" + ResolveName(name, t.iterators) + "}}")
  }

  /** Walks a node list in order; the first unknown node type aborts the walk. */
  function Program(nodes: seq<Node>, t: Transpiler): (r: Result<Transpiler, string>)
    ensures r.Success? ==> Extends(t, r.value)
    ensures r.Failure? ==> IsUnknownNodeTypeError(r.error)
    decreases SizeAll(nodes), 3
  {
    if |nodes| == 0 then Success(t)
    else
      var t1 :- Dispatch(nodes[0], t);
      Program(nodes[1..], t1)
  }

  /** The switch on a node's type. */
  function Dispatch(node: Node, t: Transpiler): (r: Result<Transpiler, string>)
    ensures r.Success? ==> Extends(t, r.value)
    ensures r.Failure? ==> IsUnknownNodeTypeError(r.error)
    decreases Size(node), 2
  {
    match node
    case Text(value) => Success(Content(value, t))
    case Var(name) => Success(Mustache(name, t))
    case Block(name, args, kids) => BlockNode(name, args, kids, t)
    case Other(kind) => Failure(UnknownNodeTypePrefix + kind)
  }

  /** The switch on a block's name; other names are ignored. */
  function BlockNode(name: string, args: Option<string>, kids: seq<Node>, t: Transpiler): (r: Result<Transpiler, string>)
    ensures r.Success? ==> Extends(t, r.value)
    ensures r.Failure? ==> IsUnknownNodeTypeError(r.error)
    decreases SizeAll(kids) + 1, 1
  {
    if name == "if" then IfBlock(args, kids, t)
    else if name == "each" then EachBlock(args, kids, t)
    else if name == "unless" then UnlessBlock(args, kids, t)
    else Success(t)
  }

  /** `{% if ARGS %}`, the children, the null returned by `program`, `{% endif %}`. */
  function IfBlock(args: Option<string>, kids: seq<Node>, t: Transpiler): (r: Result<Transpiler, string>)
    ensures r.Success? ==> Extends(t, r.value)
    ensures r.Failure? ==> IsUnknownNodeTypeError(r.error)
    decreases SizeAll(kids) + 1, 0
  {
    var t1 := Emit(t, "{% if " + ArgText(args) + " %}");
    var t2 :- Program(kids, t1);
    Success(Emit(Emit(t2, ""), "{% endif %}"))
  }

  /** `{% if not ARGS %}`, the children, the null returned by `program`, `{% endif %}`. */
  function UnlessBlock(args: Option<string>, kids: seq<Node>, t: Transpiler): (r: Result<Transpiler, string>)
    ensures r.Success? ==> Extends(t, r.value)
    ensures r.Failure? ==> IsUnknownNodeTypeError(r.error)
    decreases SizeAll(kids) + 1, 0
  {
    var t1 := Emit(t, "{% if not " + ArgText(args) + " %}");
    var t2 :- Program(kids, t1);
    Success(Emit(Emit(t2, ""), "{% endif %}"))
  }

  /** Without arguments nothing happens. Otherwise the loop variable is
      pushed, `{% for c in ARGS %}`, the children, the null returned by
      `program` and `{% endfor %}` are emitted, and the variable is popped. */
  function EachBlock(args: Option<string>, kids: seq<Node>, t: Transpiler): (r: Result<Transpiler, string>)
    ensures r.Success? ==> Extends(t, r.value)
    ensures r.Failure? ==> IsUnknownNodeTypeError(r.error)
    decreases SizeAll(kids) + 1, 0
  {
    match args
    case None => Success(t)
    case Some(arg) =>
      var current := IteratorName(arg);
      var t1 := Transpiler(t.buffer, t.iterators + [current]);
      var t2 := Emit(t1, "{% for " + current + " in " + arg + " %}");
      var t3 :- Program(kids, t2);
      var t4 := Emit(Emit(t3, ""), "{% endfor %}");
      Success(t4.(iterators := Pop(t4.iterators)))
  }

  /** Walks the whole tree from an empty buffer and stack, then joins the
      fragments with single spaces. */
  function Render(nodes: seq<Node>): Result<string, string>
  {
    var t :- Program(nodes, Transpiler([], []));
    Success(Implode(" ", t.buffer))
  }
}
