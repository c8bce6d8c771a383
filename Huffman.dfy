// The static Huffman codec: an encoder that counts symbols, builds a code
// tree, writes the tree post-order and writes each symbol's root-to-leaf
// path, and a decoder that rebuilds the tree with an explicit stack and
// walks it bit by bit.

module Huffman {
  type Symbol = nat

  datatype Option<T> = None | Some(value: T)

  /** A code tree: a leaf carries a symbol, an internal node its zero-child
      and its one-child. */
  datatype Tree = Leaf(symbol: Symbol) | Node(zero: Tree, one: Tree)

  function Leaves(t: Tree): nat
  {
    match t
    case Leaf(_) => 1
    case Node(z, o) => Leaves(z) + Leaves(o)
  }

  /** The tree stream of encodeTree: post-order, a leaf as its symbol + 1 and
      an internal node as 0 after its zero-child and its one-child. */
  function PostOrder(t: Tree): seq<nat>
  {
    match t
    case Leaf(s) => [s + 1]
    case Node(z, o) => PostOrder(z) + PostOrder(o) + [0]
  }

  /** What encodeTree writes for a tree: the symbol count, then the single
      symbol itself or the post-order stream. */
  function TreeStream(t: Tree): seq<nat>
  {
    match t
    case Leaf(s) => [1, s]
    case Node(_, _) => [Leaves(t)] + PostOrder(t)
  }

  /** The number of 0 tokens (internal nodes) in a stream. */
  function Zeros(s: seq<nat>): nat
  {
    if s == [] then 0 else Zeros(s[..|s| - 1]) + (if s[|s| - 1] == 0 then 1 else 0)
  }

  lemma {:induction false} ZerosAppend(a: seq<nat>, b: seq<nat>)
    ensures Zeros(a + b) == Zeros(a) + Zeros(b)
    ensures Zeros(a) <= |a|
    decreases |b|
  {
    if b == [] {
      assert a + b == a;
      ZerosBound(a);
    } else {
      assert (a + b)[..|a + b| - 1] == a + b[..|b| - 1];
      ZerosAppend(a, b[..|b| - 1]);
    }
  }

  lemma {:induction false} ZerosBound(a: seq<nat>)
    ensures Zeros(a) <= |a|
    decreases |a|
  {
    if a != [] {
      ZerosBound(a[..|a| - 1]);
    }
  }

  /** A tree of n leaves has n - 1 internal nodes, its stream 2n - 1 tokens,
      and the stream of an internal node ends with its 0. */
  lemma {:induction false} PostOrderCounts(t: Tree)
    ensures Zeros(PostOrder(t)) + 1 == Leaves(t)
    ensures |PostOrder(t)| + 1 == 2 * Leaves(t)
    ensures t.Node? ==> PostOrder(t)[|PostOrder(t)| - 1] == 0
  {
    match t
    case Leaf(s) =>
      assert PostOrder(t) == [] + [s + 1];
    case Node(z, o) =>
      PostOrderCounts(z);
      PostOrderCounts(o);
      ZerosAppend(PostOrder(z), PostOrder(o));
      ZerosAppend(PostOrder(z) + PostOrder(o), [0]);
      assert Zeros([0]) == Zeros([]) + 1;
  }

  // ---------------------------------------------------------------------
  // decodeTree's stack, on trees

  /** One token of decodeTree: a positive token pushes the leaf of symbol
      token - 1; a zero pops the one-child and the zero-child and pushes
      their node, and fails on a stack of fewer than two. */
  function Step(f: seq<Tree>, token: nat): Option<seq<Tree>>
  {
    if token > 0 then Some(f + [Leaf(token - 1)])
    else if |f| < 2 then None
    else Some(f[..|f| - 2] + [Node(f[|f| - 2], f[|f| - 1])])
  }

  /** The stack of trees after reading the tokens from an empty stack. */
  function Parse(tokens: seq<nat>): Option<seq<Tree>>
  {
    if tokens == [] then Some([])
    else match Parse(tokens[..|tokens| - 1])
      case None => None
      case Some(f) => Step(f, tokens[|tokens| - 1])
  }

  lemma ParseStep(tokens: seq<nat>, token: nat, f: seq<Tree>)
    requires Parse(tokens) == Some(f)
    ensures Parse(tokens + [token]) == Step(f, token)
  {
    assert (tokens + [token])[..|tokens|] == tokens;
  }

  /** The concatenated streams of a sequence of trees. */
  function Flat(f: seq<Tree>): seq<nat>
  {
    if f == [] then [] else Flat(f[..|f| - 1]) + PostOrder(f[|f| - 1])
  }

  /** Reading a tree's stream pushes exactly that tree. */
  lemma {:induction false} ParsePostOrder(x: seq<nat>, f: seq<Tree>, t: Tree)
    requires Parse(x) == Some(f)
    ensures Parse(x + PostOrder(t)) == Some(f + [t])
    decreases t
  {
    match t
    case Leaf(s) =>
      ParseStep(x, s + 1, f);
    case Node(z, o) =>
      var a := x + PostOrder(z);
      var b := a + PostOrder(o);
      ParsePostOrder(x, f, z);
      ParsePostOrder(a, f + [z], o);
      JoinStreams(x, PostOrder(z), PostOrder(o));
      ParseNode(b, f, z, o);
  }

  /** The stream of a node after x, regrouped. */
  lemma JoinStreams(x: seq<nat>, p: seq<nat>, q: seq<nat>)
    ensures x + (p + q + [0]) == x + p + q + [0]
  {
  }

  /** A zero after two trees joins them. */
  lemma ParseNode(b: seq<nat>, f: seq<Tree>, z: Tree, o: Tree)
    requires Parse(b) == Some(f + [z] + [o])
    ensures Parse(b + [0]) == Some(f + [Node(z, o)])
  {
    var g := f + [z] + [o];
    ParseStep(b, 0, g);
    assert g[..|g| - 2] == f && g[|g| - 2] == z && g[|g| - 1] == o;
  }

  /** What decodeTree accepts is the stream of the trees on its stack. */
  lemma {:induction false} ParseFlat(tokens: seq<nat>)
    requires Parse(tokens).Some?
    ensures tokens == Flat(Parse(tokens).value)
    decreases |tokens|
  {
    if tokens != [] {
      var init := tokens[..|tokens| - 1];
      var last := tokens[|tokens| - 1];
      assert tokens == init + [last];
      ParseFlat(init);
      var f := Parse(init).value;
      if last > 0 {
        assert Parse(tokens).value == f + [Leaf(last - 1)];
        assert (f + [Leaf(last - 1)])[..|f|] == f;
      } else {
        var g := f[..|f| - 2];
        var n := Node(f[|f| - 2], f[|f| - 1]);
        assert Parse(tokens).value == g + [n];
        assert (g + [n])[..|g|] == g;
        assert f[..|f| - 1] == g + [f[|f| - 2]] && (g + [f[|f| - 2]])[..|g|] == g;
        assert Flat(f) == Flat(g) + PostOrder(f[|f| - 2]) + PostOrder(f[|f| - 1]);
      }
    }
  }

  /** Every prefix of a tree's stream, read after any readable tokens, is
      readable: no pop of decodeTree finds fewer than two trees. */
  lemma {:induction false} ParsePrefix(x: seq<nat>, f: seq<Tree>, t: Tree, i: nat)
    requires Parse(x) == Some(f) && i <= |PostOrder(t)|
    ensures Parse(x + PostOrder(t)[..i]).Some?
    decreases t
  {
    match t
    case Leaf(s) =>
      if i == 0 {
        assert x + PostOrder(t)[..i] == x;
      } else {
        assert PostOrder(t)[..i] == PostOrder(t);
        ParsePostOrder(x, f, t);
      }
    case Node(z, o) =>
      var pz, po := PostOrder(z), PostOrder(o);
      if i <= |pz| {
        assert PostOrder(t)[..i] == pz[..i];
        ParsePrefix(x, f, z, i);
      } else if i <= |pz| + |po| {
        assert x + PostOrder(t)[..i] == (x + pz) + po[..i - |pz|];
        ParsePostOrder(x, f, z);
        ParsePrefix(x + pz, f + [z], o, i - |pz|);
      } else {
        assert PostOrder(t)[..i] == PostOrder(t);
        ParsePostOrder(x, f, t);
      }
  }

  /** Reading a tree's stream alone leaves exactly that tree. */
  lemma ParseTree(t: Tree)
    ensures Parse(PostOrder(t)) == Some([t])
  {
    var none: seq<nat>, empty: seq<Tree> := [], [];
    assert Parse(none) == Some(empty);
    ParsePostOrder(none, empty, t);
    assert none + PostOrder(t) == PostOrder(t);
    assert empty + [t] == [t];
  }

  /** Two trees of the same leaf count whose streams both start a token
      sequence are the same tree. */
  lemma StreamUnique(t: Tree, u: Tree, s: seq<nat>)
    requires Leaves(t) == Leaves(u)
    requires |PostOrder(t)| <= |s| && s[..|PostOrder(t)|] == PostOrder(t)
    requires |PostOrder(u)| <= |s| && s[..|PostOrder(u)|] == PostOrder(u)
    ensures t == u
  {
    PostOrderCounts(t);
    PostOrderCounts(u);
    assert PostOrder(t) == PostOrder(u);
    ParseTree(t);
    ParseTree(u);
    assert [t][0] == t;
  }

  // ---------------------------------------------------------------------
  // Paths

  /** The subtree a path of bits leads to from the root, or None when it
      runs past a leaf. */
  function Descend(t: Tree, path: seq<bool>): Option<Tree>
  {
    if path == [] then Some(t)
    else match t
      case Leaf(_) => None
      case Node(z, o) => Descend(if path[0] then o else z, path[1..])
  }

  lemma {:induction false} DescendAppend(t: Tree, p: seq<bool>, q: seq<bool>)
    requires Descend(t, p).Some?
    ensures Descend(t, p + q) == Descend(Descend(t, p).value, q)
    decreases |p|
  {
    if p != [] {
      assert (p + q)[0] == p[0] && (p + q)[1..] == p[1..] + q;
      DescendAppend(if p[0] then t.one else t.zero, p[1..], q);
    } else {
      assert p + q == q;
    }
  }

  /** decodeSymbol on a tree: from the root, each bit picks the zero- or the
      one-child until a leaf; the symbol and the number of bits read, or
      None when the bits run out first. */
  function Walk(t: Tree, bits: seq<bool>): Option<(Symbol, nat)>
  {
    match t
    case Leaf(s) => Some((s, 0))
    case Node(z, o) =>
      if bits == [] then None
      else match Walk(if bits[0] then o else z, bits[1..])
        case None => None
        case Some(r) => Some((r.0, r.1 + 1))
  }

  /** Decoding reads a symbol's code and nothing after it. */
  lemma {:induction false} WalkCode(t: Tree, code: seq<bool>, rest: seq<bool>, s: Symbol)
    requires Descend(t, code) == Some(Leaf(s))
    ensures Walk(t, code + rest) == Some((s, |code|))
    decreases |code|
  {
    if code == [] {
      assert t == Leaf(s);
    } else {
      assert (code + rest)[0] == code[0] && (code + rest)[1..] == code[1..] + rest;
      WalkCode(if code[0] then t.one else t.zero, code[1..], rest, s);
    }
  }

  /** Decoding count symbols one after another. */
  function WalkAll(t: Tree, bits: seq<bool>, count: nat): Option<seq<Symbol>>
    decreases count
  {
    if count == 0 then Some([])
    else match Walk(t, bits)
      case None => None
      case Some(r) =>
        if r.1 <= |bits| then
          match WalkAll(t, bits[r.1..], count - 1)
          case None => None
          case Some(more) => Some([r.0] + more)
        else None
  }

  /** The codes of a tree: each symbol's path leads to its leaf. */
  ghost predicate CodesOf(t: Tree, code: map<Symbol, seq<bool>>)
  {
    forall s :: s in code ==> Descend(t, code[s]) == Some(Leaf(s))
  }

  /** encodeSymbol applied to each symbol in turn. */
  function Encoded(code: map<Symbol, seq<bool>>, symbols: seq<Symbol>): seq<bool>
    requires forall s :: s in symbols ==> s in code
  {
    if symbols == [] then [] else code[symbols[0]] + Encoded(code, symbols[1..])
  }

  /** A code followed by more bits, regrouped and dropped again. */
  lemma Regroup(a: seq<bool>, b: seq<bool>, c: seq<bool>)
    ensures a + b + c == a + (b + c) && (a + (b + c))[|a|..] == b + c
  {
  }

  /** The round trip: decoding the encoded symbols gives them back, whatever
      follows them. */
  lemma {:induction false} RoundTrip(t: Tree, code: map<Symbol, seq<bool>>, symbols: seq<Symbol>, rest: seq<bool>)
    requires CodesOf(t, code) && forall s :: s in symbols ==> s in code
    ensures WalkAll(t, Encoded(code, symbols) + rest, |symbols|) == Some(symbols)
    decreases |symbols|
  {
    if symbols != [] {
      var s := symbols[0];
      var more := Encoded(code, symbols[1..]);
      var tail := more + rest;
      assert Encoded(code, symbols) == code[s] + more;
      Regroup(code[s], more, rest);
      WalkCode(t, code[s], tail, s);
      assert forall y :: y in symbols[1..] ==> y in symbols;
      RoundTrip(t, code, symbols[1..], rest);
      assert [s] + symbols[1..] == symbols;
    }
  }

  // ---------------------------------------------------------------------
  // The node arrays

  /** The tree at node x of the codec's node arrays: the nodes below n are
      the leaves, labelled by `symbols`; internal node n + k has the
      zero-child c[2k] and the one-child c[2k + 1], both smaller than it.
      None when x refers past the arrays. */
  function TreeAt(c: seq<nat>, symbols: seq<Symbol>, n: nat, x: nat): Option<Tree>
    decreases x
  {
    if x < n then (if x < |symbols| then Some(Leaf(symbols[x])) else None)
    else if 2 * (x - n) + 1 < |c| && c[2 * (x - n)] < x && c[2 * (x - n) + 1] < x then
      match TreeAt(c, symbols, n, c[2 * (x - n)])
      case None => None
      case Some(z) =>
        match TreeAt(c, symbols, n, c[2 * (x - n) + 1])
        case None => None
        case Some(o) => Some(Node(z, o))
    else None
  }

  /** Appending to the arrays leaves the trees they already hold alone. */
  lemma {:induction false} TreeAtExtend(c: seq<nat>, symbols: seq<Symbol>, n: nat, x: nat, c2: seq<nat>, s2: seq<Symbol>)
    requires TreeAt(c, symbols, n, x).Some?
    ensures TreeAt(c + c2, symbols + s2, n, x) == TreeAt(c, symbols, n, x)
    decreases x
  {
    if x >= n {
      var k := x - n;
      assert (c + c2)[2 * k] == c[2 * k] && (c + c2)[2 * k + 1] == c[2 * k + 1];
      TreeAtExtend(c, symbols, n, c[2 * k], c2, s2);
      TreeAtExtend(c, symbols, n, c[2 * k + 1], c2, s2);
    } else {
      assert (symbols + s2)[x] == symbols[x];
    }
  }

  /** Internal nodes of the arrays are tree nodes. */
  lemma InternalAt(c: seq<nat>, symbols: seq<Symbol>, n: nat, x: nat)
    requires TreeAt(c, symbols, n, x).Some? && x >= n
    ensures 2 * (x - n) + 1 < |c| && c[2 * (x - n)] < x && c[2 * (x - n) + 1] < x
    ensures TreeAt(c, symbols, n, x).value ==
      Node(TreeAt(c, symbols, n, c[2 * (x - n)]).value, TreeAt(c, symbols, n, c[2 * (x - n) + 1]).value)
  {
  }

  /** A walk result shifted by d more bits read. */
  function Shift(w: Option<(Symbol, nat)>, d: nat): Option<(Symbol, nat)>
  {
    match w
    case None => None
    case Some(r) => Some((r.0, r.1 + d))
  }

  /** Where the decodeTree loop may fail: the stream of a tree is never
      short of a pop, of a leaf slot or of a token before its last 0. */
  lemma PrefixCounts(t: Tree, i: nat)
    requires t.Node? && i <= |PostOrder(t)|
    ensures i - Zeros(PostOrder(t)[..i]) <= Leaves(t)
    ensures i < |PostOrder(t)| <==> Zeros(PostOrder(t)[..i]) < Leaves(t) - 1
    ensures Zeros(PostOrder(t)[..i]) <= Leaves(t) - 1
  {
    var p := PostOrder(t);
    PostOrderCounts(t);
    assert p == p[..i] + p[i..];
    ZerosAppend(p[..i], p[i..]);
    ZerosBound(p[i..]);
    if i < |p| {
      var tail := p[i..];
      assert tail[|tail| - 1] == 0;
      assert Zeros(tail) >= 1;
    } else {
      assert p[..i] == p;
    }
  }

  // ---------------------------------------------------------------------
  // StaticHuffmanDecoder

  /** Why a codec operation stops: an assertion of the source fails (a
      read past the token stream, a read from an empty symbol vector, a pop
      of an empty stack, a leaf past the reserved symbol slots, no bits
      left for a code, or a symbol to encode that was never counted). */
  datatype Fault = StreamEnd | NoSymbols | StackEmpty | TooManyLeaves | BitsEnd | Uncounted

  datatype Result<T> = Ok(value: T) | Fail(fault: Fault)

  /** The bits decodeSymbol loads into its mask at once. */
  const ArchitectureSize: nat := 64

  function Min(a: nat, b: nat): nat
  {
    if a < b then a else b
  }

  /** The tree stream of t lies at `at` in the tokens. */
  ghost predicate StreamAt(tokens: seq<nat>, at: nat, t: Tree)
  {
    at + |TreeStream(t)| <= |tokens| && tokens[at..at + |TreeStream(t)|] == TreeStream(t)
  }

  lemma {:induction false} NodeLeaves(t: Tree)
    ensures Leaves(t) >= 1 && (t.Node? ==> Leaves(t) >= 2)
  {
    match t
    case Leaf(_) =>
    case Node(z, o) =>
      NodeLeaves(z);
      NodeLeaves(o);
  }

  /** Only a single leaf's stream starts with a count below 2. */
  lemma LeafStreams(tokens: seq<nat>, c0: nat)
    requires c0 < |tokens| && tokens[c0] < 2
    ensures forall t :: StreamAt(tokens, c0, t) ==>
      t.Leaf? && tokens[c0] == 1 && c0 + 2 <= |tokens| && tokens[c0 + 1] == t.symbol
  {
    forall t | StreamAt(tokens, c0, t)
      ensures t.Leaf? && tokens[c0] == 1 && c0 + 2 <= |tokens| && tokens[c0 + 1] == t.symbol
    {
      NodeLeaves(t);
      assert tokens[c0] == TreeStream(t)[0];
      if t.Leaf? {
        assert tokens[c0 + 1] == TreeStream(t)[1];
      }
    }
  }

  /** A stream with a count of 2 or more is an internal node's. */
  lemma NodeStream(tokens: seq<nat>, c0: nat, t: Tree)
    requires StreamAt(tokens, c0, t) && tokens[c0] >= 2
    ensures t.Node? && Leaves(t) == tokens[c0]
    ensures c0 + 1 + |PostOrder(t)| <= |tokens| && tokens[c0 + 1..c0 + 1 + |PostOrder(t)|] == PostOrder(t)
  {
    assert tokens[c0] == TreeStream(t)[0];
    if t.Leaf? {
      assert false;
    } else {
      var p := PostOrder(t);
      assert TreeStream(t) == [Leaves(t)] + p;
      assert tokens[c0 + 1..c0 + 1 + |p|] == TreeStream(t)[1..];
    }
  }

  /** The token at a position of a tree's stream. */
  lemma GoalTokens(tokens: seq<nat>, c0: nat, t: Tree, i: nat)
    requires StreamAt(tokens, c0, t) && t.Node? && i < |PostOrder(t)|
    ensures c0 + 1 + |PostOrder(t)| <= |tokens| && tokens[c0 + 1 + i] == PostOrder(t)[i]
  {
    var stream := TreeStream(t);
    assert stream == [Leaves(t)] + PostOrder(t);
    assert stream[1 + i] == PostOrder(t)[i];
    assert tokens[c0 + 1 + i] == tokens[c0..c0 + |stream|][1 + i];
  }

  lemma ZerosStep(seg: seq<nat>, token: nat)
    ensures Zeros(seg + [token]) == Zeros(seg) + (if token == 0 then 1 else 0)
  {
    assert (seg + [token])[..|seg|] == seg;
  }

  /** A token of a tree's stream read after a prefix of it: still a prefix,
      readable, and within the leaf and node counts. */
  lemma GoalPrefix(seg: seq<nat>, token: nat, t: Tree, read: seq<nat>)
    requires t.Node? && |seg| < |PostOrder(t)| && seg == PostOrder(t)[..|seg|] && token == PostOrder(t)[|seg|]
    requires read == seg + [token]
    ensures read == PostOrder(t)[..|read|] && Parse(read).Some?
    ensures |read| - Zeros(read) <= Leaves(t)
    ensures |read| < |PostOrder(t)| <==> Zeros(read) < Leaves(t) - 1
  {
    assert read == PostOrder(t)[..|read|];
    var none: seq<nat>, empty: seq<Tree> := [], [];
    ParsePrefix(none, empty, t, |read|);
    assert none + PostOrder(t)[..|read|] == read;
    PrefixCounts(t, |read|);
  }

  /** The stack of decodeTree's loop names the nodes of the trees the
      tokens read have left, each below the next internal node n + k; once
      an internal node is written, the last one is on the stack. */
  ghost predicate Stacked(c: seq<nat>, sv: seq<Symbol>, n: nat, k: nat, stack: seq<nat>, forest: seq<Tree>)
  {
    && |stack| == |forest|
    && (forall j :: 0 <= j < |stack| ==> stack[j] < n + k && TreeAt(c, sv, n, stack[j]) == Some(forest[j]))
    && (k > 0 ==> n + k - 1 in stack)
  }

  /** decodeTree's leaf step: the new leaf goes to the top of the stack and
      the trees below keep their nodes. */
  lemma LeafStacked(c: seq<nat>, sv: seq<Symbol>, n: nat, k: nat, stack: seq<nat>, forest: seq<Tree>, s: Symbol)
    requires Stacked(c, sv, n, k, stack, forest) && |sv| < n
    ensures Stacked(c, sv + [s], n, k, stack + [|sv|], forest + [Leaf(s)])
  {
    var stack2, forest2 := stack + [|sv|], forest + [Leaf(s)];
    forall j | 0 <= j < |stack2|
      ensures stack2[j] < n + k && TreeAt(c, sv + [s], n, stack2[j]) == Some(forest2[j])
    {
      if j < |stack| {
        TreeAtExtend(c, sv, n, stack[j], [], [s]);
        assert c + [] == c;
      }
    }
    if k > 0 {
      var j :| 0 <= j < |stack| && stack[j] == n + k - 1;
      assert stack2[j] == n + k - 1;
    }
  }

  /** decodeTree's node step: the two top trees become the children of
      node n + k. */
  lemma NodeStacked(c: seq<nat>, sv: seq<Symbol>, n: nat, k: nat, stack: seq<nat>, forest: seq<Tree>)
    requires Stacked(c, sv, n, k, stack, forest) && |stack| >= 2 && |c| == 2 * k
    ensures Stacked(c + [stack[|stack| - 2], stack[|stack| - 1]], sv, n, k + 1, stack[..|stack| - 2] + [n + k],
                    forest[..|forest| - 2] + [Node(forest[|forest| - 2], forest[|forest| - 1])])
  {
    var c2 := c + [stack[|stack| - 2], stack[|stack| - 1]];
    var stack2 := stack[..|stack| - 2] + [n + k];
    var forest2 := forest[..|forest| - 2] + [Node(forest[|forest| - 2], forest[|forest| - 1])];
    assert sv + [] == sv;
    forall j | 0 <= j < |stack|
      ensures TreeAt(c2, sv, n, stack[j]) == Some(forest[j])
    {
      TreeAtExtend(c, sv, n, stack[j], [stack[|stack| - 2], stack[|stack| - 1]], []);
    }
    assert c2[2 * k] == stack[|stack| - 2] && c2[2 * k + 1] == stack[|stack| - 1];
    assert TreeAt(c2, sv, n, n + k) == Some(Node(forest[|forest| - 2], forest[|forest| - 1]));
    assert stack2[|stack2| - 1] == n + k;
    forall j | 0 <= j < |stack2|
      ensures stack2[j] < n + k + 1 && TreeAt(c2, sv, n, stack2[j]) == Some(forest2[j])
    {
      if j < |stack2| - 1 {
        assert stack2[j] == stack[j] && forest2[j] == forest[j];
      }
    }
  }

  /** The end of decodeTree's loop: one tree is left, at the root, and
      the tokens read are its stream. */
  lemma NodesDone(seg: seq<nat>, forest: seq<Tree>, stack: seq<nat>, n: nat, k: nat, c: seq<nat>, sv: seq<Symbol>)
    requires n >= 2 && k == n - 1 && |sv| <= n && |seg| == |sv| + k
    requires Parse(seg) == Some(forest) && |stack| + k == |sv|
    requires Stacked(c, sv, n, k, stack, forest)
    ensures |forest| == 1 && TreeAt(c, sv, n, 2 * n - 2) == Some(forest[0])
    ensures forest[0].Node? && Leaves(forest[0]) == n && seg == PostOrder(forest[0])
  {
    assert stack[0] == 2 * n - 2;
    ParseFlat(seg);
    assert forest == [] + [forest[0]];
    assert Flat(forest) == Flat([]) + PostOrder(forest[0]);
    PostOrderCounts(forest[0]);
  }

  /** A tree whose stream lies at c0, with a count of 2 or more, is the
      only one there. */
  lemma OnlyTree(tokens: seq<nat>, c0: nat, u: Tree)
    requires StreamAt(tokens, c0, u) && tokens[c0] >= 2
    ensures forall t :: StreamAt(tokens, c0, t) ==> t == u
  {
    NodeStream(tokens, c0, u);
    var s := tokens[c0 + 1..];
    assert s[..|PostOrder(u)|] == tokens[c0 + 1..c0 + 1 + |PostOrder(u)|];
    forall t | StreamAt(tokens, c0, t)
      ensures t == u
    {
      NodeStream(tokens, c0, t);
      assert s[..|PostOrder(t)|] == tokens[c0 + 1..c0 + 1 + |PostOrder(t)|];
      StreamUnique(t, u, s);
    }
  }

  lemma SliceNext(s: seq<nat>, i: nat, j: nat)
    requires i <= j < |s|
    ensures s[i..j + 1] == s[i..j] + [s[j]]
  {
  }

  /** The values decodeTree's loop updates: the cursor into the naturals,
      the symbols and child pairs written so far, the stack of node
      indices and huffmanChildrenIndex k; symbolIndex is the number of
      symbols written. */
  datatype Nodes = Nodes(cursor: nat, symbols: seq<Symbol>, children: seq<nat>, stack: seq<nat>, k: nat)

  /** The state of decodeTree's loop after the count at c0: the tokens
      `read` since the count leave `forest`, whose trees are the nodes on
      the stack, with k internal nodes among them. */
  ghost predicate DecodingAt(tokens: seq<nat>, c0: nat, st: Nodes, read: seq<nat>, forest: seq<Tree>)
  {
    var holds :=
      && c0 < |tokens| && tokens[c0] >= 2
      && c0 + 1 <= st.cursor <= |tokens| && read == tokens[c0 + 1..st.cursor]
      && |read| == |st.symbols| + st.k && |st.symbols| <= tokens[c0]
      && |st.children| == 2 * st.k && st.k <= tokens[c0] - 1
      && Parse(read) == Some(forest) && Zeros(read) == st.k && |st.stack| + st.k == |st.symbols|
      && Stacked(st.children, st.symbols, tokens[c0], st.k, st.stack, forest);
    holds
  }

  lemma StartNodes(tokens: seq<nat>, c0: nat)
    requires c0 < |tokens| && tokens[c0] >= 2
    ensures DecodingAt(tokens, c0, Nodes(c0 + 1, [], [], [], 0), [], [])
  {
    assert tokens[c0 + 1..c0 + 1] == [];
  }

  /** Tokens read from the start of a stream lying in the tokens that hold
      fewer zeros than it stop inside it, at a prefix of it. */
  lemma InsideStream(tokens: seq<nat>, start: nat, cursor: nat, p: seq<nat>)
    requires start <= cursor <= |tokens| && start + |p| <= |tokens| && tokens[start..start + |p|] == p
    requires Zeros(tokens[start..cursor]) < Zeros(p)
    ensures cursor - start < |p| && tokens[start..cursor] == p[..cursor - start]
  {
    var read := tokens[start..cursor];
    if cursor - start >= |p| {
      assert read[..|p|] == p;
      assert read == read[..|p|] + read[|p|..];
      ZerosAppend(read[..|p|], read[|p|..]);
      assert false;
    }
  }

  /** Short of the last internal node, the tokens read since the count of
      a tree's stream are a proper prefix of its post-order stream. */
  lemma ShortOfStream(tokens: seq<nat>, c0: nat, cursor: nat, t: Tree)
    requires StreamAt(tokens, c0, t) && tokens[c0] >= 2 && c0 + 1 <= cursor <= |tokens|
    requires Zeros(tokens[c0 + 1..cursor]) < tokens[c0] - 1
    ensures t.Node? && Leaves(t) == tokens[c0]
    ensures cursor - (c0 + 1) < |PostOrder(t)| && tokens[c0 + 1..cursor] == PostOrder(t)[..cursor - (c0 + 1)]
  {
    NodeStream(tokens, c0, t);
    PostOrderCounts(t);
    InsideStream(tokens, c0 + 1, cursor, PostOrder(t));
  }

  /** On a tree's stream, the next token is there, a leaf has a free
      symbol slot and a 0 finds two trees on the stack. */
  lemma OnStream(tokens: seq<nat>, c0: nat, st: Nodes, read: seq<nat>, forest: seq<Tree>, t: Tree)
    requires DecodingAt(tokens, c0, st, read, forest) && st.k < tokens[c0] - 1 && StreamAt(tokens, c0, t)
    ensures st.cursor < |tokens|
    ensures tokens[st.cursor] > 0 ==> |st.symbols| < tokens[c0]
    ensures tokens[st.cursor] == 0 ==> |st.stack| >= 2
  {
    ShortOfStream(tokens, c0, st.cursor, t);
    GoalTokens(tokens, c0, t, |read|);
    var token := tokens[st.cursor];
    GoalPrefix(read, token, t, read + [token]);
    ParseStep(read, token, forest);
    ZerosStep(read, token);
  }

  /** Off every tree's stream is where the loop may stop. */
  lemma Ahead(tokens: seq<nat>, c0: nat, st: Nodes, read: seq<nat>, forest: seq<Tree>)
    requires DecodingAt(tokens, c0, st, read, forest) && st.k < tokens[c0] - 1
    ensures forall t :: StreamAt(tokens, c0, t) ==>
      (st.cursor < |tokens| && (tokens[st.cursor] > 0 ==> |st.symbols| < tokens[c0]) &&
       (tokens[st.cursor] == 0 ==> |st.stack| >= 2))
  {
    forall t | StreamAt(tokens, c0, t)
      ensures st.cursor < |tokens| && (tokens[st.cursor] > 0 ==> |st.symbols| < tokens[c0]) &&
              (tokens[st.cursor] == 0 ==> |st.stack| >= 2)
    {
      OnStream(tokens, c0, st, read, forest, t);
    }
  }

  /** The tokens read with the next one: one more parse step. */
  lemma ReadNext(tokens: seq<nat>, c0: nat, st: Nodes, read: seq<nat>, forest: seq<Tree>)
    requires DecodingAt(tokens, c0, st, read, forest) && st.cursor < |tokens|
    ensures read + [tokens[st.cursor]] == tokens[c0 + 1..st.cursor + 1]
    ensures Parse(read + [tokens[st.cursor]]) == Step(forest, tokens[st.cursor])
    ensures Zeros(read + [tokens[st.cursor]]) == st.k + (if tokens[st.cursor] == 0 then 1 else 0)
  {
    SliceNext(tokens, c0 + 1, st.cursor);
    ParseStep(read, tokens[st.cursor], forest);
    ZerosStep(read, tokens[st.cursor]);
  }

  /** decodeTree reads a leaf: the new leaf goes to the top of the stack
      and takes the next symbol slot. */
  lemma LeafStep(tokens: seq<nat>, c0: nat, st: Nodes, read: seq<nat>, forest: seq<Tree>,
                 st': Nodes, read': seq<nat>, forest': seq<Tree>)
    requires DecodingAt(tokens, c0, st, read, forest)
    requires st.cursor < |tokens| && tokens[st.cursor] > 0 && |st.symbols| < tokens[c0]
    requires st' == Nodes(st.cursor + 1, st.symbols + [tokens[st.cursor] - 1], st.children,
                          st.stack + [|st.symbols|], st.k)
    requires read' == read + [tokens[st.cursor]] && forest' == forest + [Leaf(tokens[st.cursor] - 1)]
    ensures DecodingAt(tokens, c0, st', read', forest')
  {
    ReadNext(tokens, c0, st, read, forest);
    LeafStacked(st.children, st.symbols, tokens[c0], st.k, st.stack, forest, tokens[st.cursor] - 1);
  }

  /** decodeTree reads an internal node: the two top trees join under the
      next internal node n + k, whose children are their nodes. */
  lemma NodeStep(tokens: seq<nat>, c0: nat, st: Nodes, read: seq<nat>, forest: seq<Tree>,
                 st': Nodes, read': seq<nat>, forest': seq<Tree>)
    requires DecodingAt(tokens, c0, st, read, forest) && st.k < tokens[c0] - 1
    requires st.cursor < |tokens| && tokens[st.cursor] == 0 && |st.stack| >= 2
    requires st' == Nodes(st.cursor + 1, st.symbols,
                          st.children + [st.stack[|st.stack| - 2], st.stack[|st.stack| - 1]],
                          st.stack[..|st.stack| - 2] + [tokens[c0] + st.k], st.k + 1)
    requires read' == read + [0] && forest' == forest[..|forest| - 2] + [Node(forest[|forest| - 2], forest[|forest| - 1])]
    ensures DecodingAt(tokens, c0, st', read', forest')
  {
    ReadNext(tokens, c0, st, read, forest);
    NodeStacked(st.children, st.symbols, tokens[c0], st.k, st.stack, forest);
  }

  /** The end of decodeTree's loop: the root holds a tree whose stream is
      the tokens read since c0. */
  lemma FinishNodes(tokens: seq<nat>, c0: nat, st: Nodes, read: seq<nat>, forest: seq<Tree>)
    requires DecodingAt(tokens, c0, st, read, forest) && st.k == tokens[c0] - 1
    ensures TreeAt(st.children, st.symbols, tokens[c0], 2 * tokens[c0] - 2).Some?
    ensures tokens[c0..st.cursor] == TreeStream(TreeAt(st.children, st.symbols, tokens[c0], 2 * tokens[c0] - 2).value)
    ensures StreamAt(tokens, c0, TreeAt(st.children, st.symbols, tokens[c0], 2 * tokens[c0] - 2).value)
  {
    NodesDone(read, forest, st.stack, tokens[c0], st.k, st.children, st.symbols);
    StreamRead(tokens, c0, st.cursor, forest[0]);
  }

  /** What decodeTree's loop has found when it ends: the tree at the root
      is the one tree whose stream lies at c0. */
  lemma NodesFound(tokens: seq<nat>, c0: nat, st: Nodes, read: seq<nat>, forest: seq<Tree>)
    requires DecodingAt(tokens, c0, st, read, forest) && st.k >= tokens[c0] - 1
    ensures TreeAt(st.children, st.symbols, tokens[c0], 2 * tokens[c0] - 2).Some?
    ensures tokens[c0..st.cursor] == TreeStream(TreeAt(st.children, st.symbols, tokens[c0], 2 * tokens[c0] - 2).value)
    ensures forall t :: StreamAt(tokens, c0, t) ==> TreeAt(st.children, st.symbols, tokens[c0], 2 * tokens[c0] - 2) == Some(t)
  {
    FinishNodes(tokens, c0, st, read, forest);
    OnlyTree(tokens, c0, TreeAt(st.children, st.symbols, tokens[c0], 2 * tokens[c0] - 2).value);
  }

  /** The count at c0 and the post-order stream after it make up the
      tree's stream. */
  lemma StreamRead(tokens: seq<nat>, c0: nat, cursor: nat, u: Tree)
    requires c0 < cursor <= |tokens| && u.Node? && Leaves(u) == tokens[c0] && tokens[c0 + 1..cursor] == PostOrder(u)
    ensures tokens[c0..cursor] == TreeStream(u) && StreamAt(tokens, c0, u)
  {
    assert tokens[c0..cursor] == [tokens[c0]] + tokens[c0 + 1..cursor];
  }

  /** One token of decodeTree's loop: a leaf takes the next symbol slot, a
      0 joins the two top trees under the next internal node.  It fails
      only off every tree's stream. */
  method NodeToken(tokens: seq<nat>, c0: nat, st: Nodes, ghost read: seq<nat>, ghost forest: seq<Tree>)
    returns (r: Result<Nodes>, ghost read': seq<nat>, ghost forest': seq<Tree>)
    requires DecodingAt(tokens, c0, st, read, forest) && st.k < tokens[c0] - 1
    ensures r.Ok? ==> DecodingAt(tokens, c0, r.value, read', forest') && r.value.cursor == st.cursor + 1
    ensures r.Fail? ==> forall t :: !StreamAt(tokens, c0, t)
  {
    var n := tokens[c0];
    Ahead(tokens, c0, st, read, forest);
    read', forest' := read, forest;
    if st.cursor == |tokens| {
      return Fail(StreamEnd), read', forest';
    }
    var symbol := tokens[st.cursor];
    read' := read + [symbol];
    if symbol > 0 {
      if |st.symbols| == n {
        return Fail(TooManyLeaves), read', forest';
      }
      var leaf: Symbol := symbol - 1;
      forest' := forest + [Leaf(leaf)];
      r := Ok(Nodes(st.cursor + 1, st.symbols + [leaf], st.children, st.stack + [|st.symbols|], st.k));
      LeafStep(tokens, c0, st, read, forest, r.value, read', forest');
    } else {
      if |st.stack| < 2 {
        return Fail(StackEmpty), read', forest';
      }
      var one := st.stack[|st.stack| - 1];
      var zero := st.stack[|st.stack| - 2];
      var node: nat := n + st.k;
      forest' := forest[..|forest| - 2] + [Node(forest[|forest| - 2], forest[|forest| - 1])];
      r := Ok(Nodes(st.cursor + 1, st.symbols, st.children + [zero, one], st.stack[..|st.stack| - 2] + [node], st.k + 1));
      NodeStep(tokens, c0, st, read, forest, r.value, read', forest');
    }
  }

  /** decodeTree's loop over the post-order stream after a count of 2 or
      more at c0: it succeeds exactly when a tree's stream lies at c0, and
      then the root node 2 * count - 2 holds that tree. */
  method DecodeNodes(tokens: seq<nat>, c0: nat) returns (r: Result<()>, cursor: nat, symbols: seq<Symbol>, children: seq<nat>)
    requires c0 < |tokens| && tokens[c0] >= 2
    ensures c0 + 1 <= cursor <= |tokens|
    ensures r.Ok? ==> TreeAt(children, symbols, tokens[c0], 2 * tokens[c0] - 2).Some?
    ensures r.Ok? ==> tokens[c0..cursor] == TreeStream(TreeAt(children, symbols, tokens[c0], 2 * tokens[c0] - 2).value)
    ensures forall t :: StreamAt(tokens, c0, t) ==> r.Ok? && TreeAt(children, symbols, tokens[c0], 2 * tokens[c0] - 2) == Some(t)
  {
    var n := tokens[c0];
    StartNodes(tokens, c0);
    var st := Nodes(c0 + 1, [], [], [], 0);
    ghost var read: seq<nat>, forest: seq<Tree> := [], [];
    while st.k < n - 1
      invariant DecodingAt(tokens, c0, st, read, forest)
      decreases |tokens| - st.cursor
    {
      var next;
      next, read, forest := NodeToken(tokens, c0, st, read, forest);
      if next.Fail? {
        return Fail(next.fault), st.cursor, st.symbols, st.children;
      }
      st := next.value;
    }
    NodesFound(tokens, c0, st, read, forest);
    return Ok(()), st.cursor, st.symbols, st.children;
  }

  /** The tree a symbol count, symbol vector and child array describe:
      the single symbol, or the tree rooted at node 2 * count - 2. */
  ghost function TreeOf(n: nat, symbols: seq<Symbol>, children: seq<nat>): Option<Tree>
  {
    if n == 1 && |symbols| == 1 then Some(Leaf(symbols[0]))
    else if n >= 2 then TreeAt(children, symbols, n, 2 * n - 2)
    else None
  }

  /** decodeTree on the naturals from c0: the symbol count and then the
      single symbol or the post-order stream, up to the count - 1 st
      internal node.  It succeeds exactly when a tree's stream is there,
      and then the values read describe that tree. */
  method ReadTree(tokens: seq<nat>, c0: nat) returns (r: Result<()>, cursor: nat, n: nat, symbols: seq<Symbol>, children: seq<nat>)
    requires c0 <= |tokens|
    ensures c0 <= cursor <= |tokens|
    ensures r.Ok? ==> c0 < |tokens| && n == tokens[c0] && (TreeOf(n, symbols, children).Some? || (n == 0 && symbols == []))
    ensures r.Ok? && TreeOf(n, symbols, children).None? ==> tokens[c0..cursor] == [0]
    ensures r.Ok? && TreeOf(n, symbols, children).Some? ==> tokens[c0..cursor] == TreeStream(TreeOf(n, symbols, children).value)
    ensures forall t :: StreamAt(tokens, c0, t) ==> r.Ok? && TreeOf(n, symbols, children) == Some(t)
  {
    symbols, children := [], [];
    if c0 == |tokens| {
      return Fail(StreamEnd), c0, 0, symbols, children;
    }
    n := tokens[c0];
    cursor := c0 + 1;
    if n < 2 {
      LeafStreams(tokens, c0);
      if n == 1 {
        if cursor == |tokens| {
          return Fail(StreamEnd), cursor, n, symbols, children;
        }
        symbols := [tokens[cursor]];
        cursor := cursor + 1;
        assert tokens[c0..cursor] == [1, symbols[0]];
      } else {
        assert tokens[c0..cursor] == [0];
      }
      return Ok(()), cursor, n, symbols, children;
    }
    r, cursor, symbols, children := DecodeNodes(tokens, c0);
  }

  /** One bit of decodeSymbol's walk: from internal node x the bit at pos
      picks the child, and the walk goes on from there one bit later. */
  lemma WalkStep(blob: seq<bool>, pos: nat, c: seq<nat>, sv: seq<Symbol>, n: nat, x: nat)
    requires TreeAt(c, sv, n, x).Some? && x >= n && pos < |blob|
    ensures 2 * (x - n) + 1 < |c|
    ensures var next := c[2 * (x - n) + (if blob[pos] then 1 else 0)];
      next < x && TreeAt(c, sv, n, next).Some? &&
      Walk(TreeAt(c, sv, n, x).value, blob[pos..]) == Shift(Walk(TreeAt(c, sv, n, next).value, blob[pos + 1..]), 1)
  {
    InternalAt(c, sv, n, x);
    assert blob[pos..][1..] == blob[pos + 1..];
  }

  /** The state of decodeSymbol's loop: `at` is the offset after the bits
      loaded, the mask holds the loaded bits from `pos` on that are not yet
      used, and the walk from the offset goes on from internal node
      n + index at pos. */
  ghost predicate Walking(blob: seq<bool>, offset: nat, n: nat, sv: seq<Symbol>, c: seq<nat>,
                          walk: Option<(Symbol, nat)>, pos: nat, at: nat, index: nat)
  {
    var holds :=
      && offset <= pos <= at <= |blob|
      && TreeAt(c, sv, n, n + index).Some?
      && walk == Shift(Walk(TreeAt(c, sv, n, n + index).value, blob[pos..]), pos - offset);
    holds
  }

  lemma StartWalk(blob: seq<bool>, offset: nat, n: nat, sv: seq<Symbol>, c: seq<nat>)
    requires n >= 2 && offset <= |blob| && TreeAt(c, sv, n, 2 * n - 2).Some?
    ensures Walking(blob, offset, n, sv, c, Walk(TreeAt(c, sv, n, 2 * n - 2).value, blob[offset..]), offset, offset, n - 2)
  {
    assert n + (n - 2) == 2 * n - 2;
    var w := Walk(TreeAt(c, sv, n, 2 * n - 2).value, blob[offset..]);
    assert Shift(w, 0) == w;
  }

  /** With the mask used up and no bits left, the walk has run out. */
  lemma WalkExhausted(blob: seq<bool>, offset: nat, n: nat, sv: seq<Symbol>, c: seq<nat>,
                      walk: Option<(Symbol, nat)>, index: nat)
    requires Walking(blob, offset, n, sv, c, walk, |blob|, |blob|, index)
    ensures walk.None?
  {
    InternalAt(c, sv, n, n + index);
  }

  /** One bit of the mask: a leaf child ends the walk after that bit, an
      internal child carries it on. */
  lemma WalkBit(blob: seq<bool>, offset: nat, n: nat, sv: seq<Symbol>, c: seq<nat>,
                walk: Option<(Symbol, nat)>, pos: nat, at: nat, index: nat)
    requires Walking(blob, offset, n, sv, c, walk, pos, at, index) && pos < at
    ensures index * 2 + 1 < |c|
    ensures var next := c[index * 2 + (if blob[pos] then 1 else 0)];
      && (next < n ==> next < |sv| && walk.Some? && walk.value.0 == sv[next] && walk.value.1 == pos + 1 - offset)
      && (next >= n ==> Walking(blob, offset, n, sv, c, walk, pos + 1, at, next - n))
  {
    WalkStep(blob, pos, c, sv, n, n + index);
  }

  /** decodeSymbol's walk for two or more symbols, from the root node
      2 * n - 2.  The mask holds the bitsLeft bits loaded and not yet used,
      at most ArchitectureSize of them at a time, which are the bits of
      the blob just below offset'.  It reads the walk's bits and leaves the
      offset just after them. */
  method WalkNodes(blob: seq<bool>, offset: nat, n: nat, symbols: seq<Symbol>, children: seq<nat>)
    returns (r: Result<Symbol>, offset': nat)
    requires n >= 2 && offset <= |blob| && TreeAt(children, symbols, n, 2 * n - 2).Some?
    ensures Walk(TreeAt(children, symbols, n, 2 * n - 2).value, blob[offset..]).None? ==>
      r == Fail(BitsEnd) && offset' == |blob|
    ensures Walk(TreeAt(children, symbols, n, 2 * n - 2).value, blob[offset..]).Some? ==>
      var w := Walk(TreeAt(children, symbols, n, 2 * n - 2).value, blob[offset..]).value;
      r == Ok(w.0) && offset' == offset + w.1
  {
    ghost var walk := Walk(TreeAt(children, symbols, n, 2 * n - 2).value, blob[offset..]);
    StartWalk(blob, offset, n, symbols, children);
    var bitsLeft: nat := 0;
    var index: nat := n - 2;
    offset' := offset;
    while true
      invariant bitsLeft <= offset' && Walking(blob, offset, n, symbols, children, walk, offset' - bitsLeft, offset', index)
      decreases |blob| - (offset' - bitsLeft)
    {
      if bitsLeft == 0 {
        bitsLeft := Min(ArchitectureSize, |blob| - offset');
        if bitsLeft == 0 {
          WalkExhausted(blob, offset, n, symbols, children, walk, index);
          return Fail(BitsEnd), offset';
        }
        offset' := offset' + bitsLeft;
      }
      ghost var pos := offset' - bitsLeft;
      WalkBit(blob, offset, n, symbols, children, walk, pos, offset', index);
      var next := children[index * 2 + (if blob[offset' - bitsLeft] then 1 else 0)];
      bitsLeft := bitsLeft - 1;
      assert offset' - bitsLeft == pos + 1;
      if next < n {
        offset' := offset' - bitsLeft;
        return Ok(symbols[next]), offset';
      }
      index := next - n;
    }
  }

  /** StaticHuffmanDecoder over a blob: `tokens` and `cursor` are the blob's
      BVL naturals and the offset into them, `blob` and `offset` the code
      bits and the offset into them. */
  class Decoder {
    var tokens: seq<nat>
    var cursor: nat
    var blob: seq<bool>
    var offset: nat
    var symbolCount: nat
    var symbolVector: seq<Symbol>
    var huffmanChildren: seq<nat>

    constructor (tokens: seq<nat>, cursor: nat, blob: seq<bool>, offset: nat)
      ensures this.tokens == tokens && this.cursor == cursor && this.blob == blob && this.offset == offset
      ensures symbolCount == 0 && symbolVector == [] && huffmanChildren == []
    {
      this.tokens, this.cursor, this.blob, this.offset := tokens, cursor, blob, offset;
      symbolCount, symbolVector, huffmanChildren := 0, [], [];
    }

    /** The tree the decoder holds: the single symbol, or the tree rooted
        at node 2 * symbolCount - 2. */
    ghost function Tree(): Option<Tree>
      reads this
    {
      TreeOf(symbolCount, symbolVector, huffmanChildren)
    }

    /** decodeTree has read a tree, or a symbol count of 0. */
    ghost predicate Valid()
      reads this
    {
      Tree().Some? || (symbolCount == 0 && symbolVector == [])
    }

    /** decodeTree: reads the symbol count and then the single symbol or
        the post-order stream, up to the symbolCount - 1 st internal node.
        It succeeds exactly when a tree's stream is there, and then holds
        that tree. */
    method DecodeTree() returns (r: Result<()>)
      requires cursor <= |tokens|
      modifies this
      ensures tokens == old(tokens) && blob == old(blob) && offset == old(offset)
      ensures old(cursor) <= cursor <= |tokens|
      ensures r.Ok? ==> old(cursor) < |tokens| && Valid() && symbolCount == tokens[old(cursor)]
      ensures r.Ok? && Tree().None? ==> tokens[old(cursor)..cursor] == [0]
      ensures r.Ok? && Tree().Some? ==> tokens[old(cursor)..cursor] == TreeStream(Tree().value)
      ensures forall t :: StreamAt(tokens, old(cursor), t) ==> r.Ok? && Tree() == Some(t)
    {
      var children;
      r, cursor, symbolCount, symbolVector, children := ReadTree(tokens, cursor);
      if symbolCount >= 2 {
        huffmanChildren := children;
      }
    }

    /** decodeSymbol: a single symbol takes no bits; otherwise the walk
        from the root reads the symbol's code and leaves the offset after
        it.  A decoder without symbols, or bits that end inside a code,
        break the source's assertions. */
    method DecodeSymbol() returns (r: Result<Symbol>)
      requires Valid() && offset <= |blob|
      modifies this
      ensures tokens == old(tokens) && cursor == old(cursor) && blob == old(blob)
      ensures symbolCount == old(symbolCount) && symbolVector == old(symbolVector) && huffmanChildren == old(huffmanChildren)
      ensures Tree().None? ==> r == Fail(NoSymbols) && offset == old(offset)
      ensures Tree().Some? && Walk(Tree().value, blob[old(offset)..]).None? ==> r == Fail(BitsEnd) && offset == |blob|
      ensures Tree().Some? && Walk(Tree().value, blob[old(offset)..]).Some? ==>
        var w := Walk(Tree().value, blob[old(offset)..]).value;
        r == Ok(w.0) && offset == old(offset) + w.1
    {
      if symbolCount < 2 {
        if |symbolVector| == 0 {
          return Fail(NoSymbols);
        }
        return Ok(symbolVector[0]);
      }
      r, offset := WalkNodes(blob, offset, symbolCount, symbolVector, huffmanChildren);
    }
  }
}


