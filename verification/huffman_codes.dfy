/**
  The code tables of `build_codes` / `_build_codes_recursive`: every leaf
  gets the path from the root to it, '0' for a step to the left child and
  '1' for a step to the right child.

  Codes are Python strings of '0' and '1' characters; the tables are the
  `codes` dict (symbol to code) and the `reverse_codes` dict (code to
  symbol).
 */
module HuffmanCodes {
  import opened Outcomes
  import opened HuffmanModels
  import opened HuffmanTree

  /**
    Follow a code string from `n`: '0' goes left, '1' goes right. Stepping
    below a leaf, or a character other than '0'/'1', leads nowhere.
   */
  function Walk(n: Node, path: string): Option<Node>
    decreases |path|
  {
    if |path| == 0 then Some(n)
    else match n
      case Leaf(_, _) => None
      case Internal(_, l, r) =>
        if path[0] == '0' then Walk(l, path[1..])
        else if path[0] == '1' then Walk(r, path[1..])
        else None
  }

  /** `path` leads from `n` to a leaf carrying `s`. */
  predicate ReachesLeaf(n: Node, path: string, s: Symbol) {
    var w := Walk(n, path);
    w.Some? && w.value.Leaf? && w.value.symbol == s
  }

  /** Walking a concatenation is walking the first part, then the second from where it ended. */
  lemma {:induction false} WalkAppend(n: Node, a: string, b: string)
    ensures Walk(n, a + b) == if Walk(n, a).Some? then Walk(Walk(n, a).value, b) else None
    decreases |a|
  {
    if |a| > 0 && n.Internal? {
      assert (a + b)[0] == a[0];
      assert (a + b)[1..] == a[1..] + b;
      WalkAppend(n.left, a[1..], b);
      WalkAppend(n.right, a[1..], b);
    } else if |a| == 0 {
      assert a + b == b;
    }
  }

  /** A leaf reached by a walk is one of the tree's leaves. */
  lemma {:induction false} ReachedIsMember(n: Node, path: string, s: Symbol)
    requires ReachesLeaf(n, path, s)
    ensures s in Symbols(n)
    decreases |path|
  {
    if |path| > 0 {
      if path[0] == '0' {
        ReachedIsMember(n.left, path[1..], s);
      } else {
        ReachedIsMember(n.right, path[1..], s);
      }
    }
  }

  /** In a tree whose symbols are distinct, a symbol has only one path. */
  lemma {:induction false} LeafPathUnique(n: Node, a: string, b: string, s: Symbol)
    requires Distinct(n)
    requires ReachesLeaf(n, a, s) && ReachesLeaf(n, b, s)
    ensures a == b
    decreases |a|
  {
    if n.Internal? {
      var l, r := n.left, n.right;
      assert |a| > 0 && |b| > 0;
      assert Distinct(l) && Distinct(r) by {
        forall x
          ensures Symbols(l)[x] <= 1 && Symbols(r)[x] <= 1
        {
          assert Symbols(n)[x] == Symbols(l)[x] + Symbols(r)[x];
        }
      }
      if a[0] != b[0] {
        ReachedIsMember(l, if a[0] == '0' then a[1..] else b[1..], s);
        ReachedIsMember(r, if a[0] == '1' then a[1..] else b[1..], s);
        SharedSymbolNotDistinct(n, s);
        assert false;
      } else if a[0] == '0' {
        LeafPathUnique(l, a[1..], b[1..], s);
        assert a == [a[0]] + a[1..] && b == [b[0]] + b[1..];
      } else {
        LeafPathUnique(r, a[1..], b[1..], s);
        assert a == [a[0]] + a[1..] && b == [b[0]] + b[1..];
      }
    }
  }

  lemma SharedSymbolNotDistinct(n: Node, s: Symbol)
    requires n.Internal? && s in Symbols(n.left) && s in Symbols(n.right)
    ensures !Distinct(n)
  {
    assert Symbols(n)[s] == Symbols(n.left)[s] + Symbols(n.right)[s];
  }

  /** The step `_build_codes_recursive(child, code + bit)` lands in the child. */
  lemma StepIntoChild(n: Node, prefix: string, bit: char, c: string)
    requires n.Internal? && (bit == '0' || bit == '1')
    requires prefix + [bit] <= c
    ensures prefix <= c
    ensures Walk(n, c[|prefix|..]) == Walk(if bit == '0' then n.left else n.right, c[|prefix| + 1..])
  {
    var tail := c[|prefix|..];
    assert tail[0] == bit;
    assert tail[1..] == c[|prefix| + 1..];
  }

  /**
    `_build_codes_recursive(n, prefix)` as the `codes` entries it assigns:
    the left subtree first, then the right one, a later assignment to the
    same symbol overwriting an earlier one.
   */
  function CodesFrom(n: Node, prefix: string): map<Symbol, string>
    decreases n
  {
    match n
    case Leaf(_, s) => map[s := prefix]
    case Internal(_, left, right) => CodesFrom(left, prefix + "0") + CodesFrom(right, prefix + "1")
  }

  /** Every symbol of the tree, and nothing else, gets a code. */
  lemma {:induction false} CodesKeys(n: Node, prefix: string)
    ensures forall s :: s in CodesFrom(n, prefix) <==> s in Symbols(n)
    decreases n
  {
    if n.Internal? {
      CodesKeys(n.left, prefix + "0");
      CodesKeys(n.right, prefix + "1");
    }
  }

  /**
    The code of `s` extends `prefix` by the path from `n` to a leaf carrying
    `s`.
   */
  lemma {:induction false} CodePath(n: Node, prefix: string, s: Symbol)
    requires s in CodesFrom(n, prefix)
    ensures prefix <= CodesFrom(n, prefix)[s]
    ensures ReachesLeaf(n, CodesFrom(n, prefix)[s][|prefix|..], s)
    decreases n
  {
    match n
    case Leaf(_, _) =>
      assert CodesFrom(n, prefix)[s][|prefix|..] == [];
    case Internal(_, left, right) =>
      var lm, rm := CodesFrom(left, prefix + "0"), CodesFrom(right, prefix + "1");
      assert CodesFrom(n, prefix) == lm + rm;
      if s in rm {
        assert CodesFrom(n, prefix)[s] == rm[s];
        CodePath(right, prefix + "1", s);
        StepIntoChild(n, prefix, '1', rm[s]);
      } else {
        assert CodesFrom(n, prefix)[s] == lm[s];
        CodePath(left, prefix + "0", s);
        StepIntoChild(n, prefix, '0', lm[s]);
      }
  }

  /**
    `_build_codes_recursive(n, prefix)` as the `reverse_codes` entries it
    assigns, in the same order.
   */
  function ReverseFrom(n: Node, prefix: string): map<string, Symbol>
    decreases n
  {
    match n
    case Leaf(_, s) => map[prefix := s]
    case Internal(_, left, right) => ReverseFrom(left, prefix + "0") + ReverseFrom(right, prefix + "1")
  }

  /** A key of `reverse_codes` extends `prefix` by a path to a leaf carrying the symbol it maps to. */
  lemma {:induction false} ReversePath(n: Node, prefix: string, c: string)
    requires c in ReverseFrom(n, prefix)
    ensures prefix <= c && ReachesLeaf(n, c[|prefix|..], ReverseFrom(n, prefix)[c])
    decreases n
  {
    match n
    case Leaf(_, _) =>
      assert c[|prefix|..] == [];
    case Internal(_, left, right) =>
      if c in ReverseFrom(right, prefix + "1") {
        ReversePath(right, prefix + "1", c);
        StepIntoChild(n, prefix, '1', c);
      } else {
        ReversePath(left, prefix + "0", c);
        StepIntoChild(n, prefix, '0', c);
      }
  }

  /** The code `CodesFrom` assigns to `s` is a key of `ReverseFrom` mapping back to `s`. */
  lemma {:induction false} ReverseCoversCode(n: Node, prefix: string, s: Symbol)
    requires s in CodesFrom(n, prefix)
    ensures CodesFrom(n, prefix)[s] in ReverseFrom(n, prefix)
    ensures ReverseFrom(n, prefix)[CodesFrom(n, prefix)[s]] == s
    decreases n
  {
    match n
    case Leaf(_, _) =>
    case Internal(_, left, right) =>
      var rc, rr := CodesFrom(right, prefix + "1"), ReverseFrom(right, prefix + "1");
      if s in rc {
        ReverseCoversCode(right, prefix + "1", s);
      } else {
        var c := CodesFrom(left, prefix + "0")[s];
        ReverseCoversCode(left, prefix + "0", s);
        CodePath(left, prefix + "0", s);
        assert c[|prefix|] == '0';
        if c in rr {
          ReversePath(right, prefix + "1", c);
          assert false;
        }
      }
  }

  /** The `codes` and `reverse_codes` dicts after `build_codes`. */
  datatype CodeTables = CodeTables(codes: map<Symbol, string>, reverse: map<string, Symbol>)

  /**
    `build_codes`: both tables are rebuilt from nothing; without a tree
    they stay empty.
   */
  function BuildCodes(root: Option<Node>): (r: CodeTables)
    ensures root.None? ==> r.codes == map[] && r.reverse == map[]
    ensures root.Some? ==> forall s :: s in r.codes <==> s in Symbols(root.value)
    ensures root.Some? ==> forall s :: s in r.codes ==> ReachesLeaf(root.value, r.codes[s], s)
    ensures root.Some? && root.value.Internal? ==> forall s :: s in r.codes ==> |r.codes[s]| >= 1
  {
    match root
    case None => CodeTables(map[], map[])
    case Some(n) =>
      var codes := CodesFrom(n, "");
      CodesKeys(n, "");
      assert forall s :: s in codes ==> ReachesLeaf(n, codes[s], s) by {
        forall s | s in codes
          ensures ReachesLeaf(n, codes[s], s)
        {
          CodePath(n, "", s);
          assert codes[s][0..] == codes[s];
        }
      }
      CodeTables(codes, ReverseFrom(n, ""))
  }

  /** No code is a prefix of another symbol's code. */
  lemma CodesPrefixFree(root: Node)
    ensures var codes := BuildCodes(Some(root)).codes;
      forall s1, s2 :: s1 in codes && s2 in codes && s1 != s2 ==> !(codes[s1] <= codes[s2])
  {
    var codes := BuildCodes(Some(root)).codes;
    forall s1, s2 | s1 in codes && s2 in codes && s1 != s2
      ensures !(codes[s1] <= codes[s2])
    {
      NoCodeExtendsAnother(root, codes[s1], codes[s2], s1, s2);
    }
  }

  /** A path to a leaf cannot be extended to reach another leaf. */
  lemma NoCodeExtendsAnother(root: Node, a: string, b: string, s1: Symbol, s2: Symbol)
    requires ReachesLeaf(root, a, s1) && ReachesLeaf(root, b, s2) && s1 != s2
    ensures !(a <= b)
  {
    if a <= b {
      var d := b[|a|..];
      assert b == a + d;
      WalkAppend(root, a, d);
    }
  }

  /**
    For a tree with distinct symbols `reverse_codes` is exactly the inverse
    of `codes`: its keys are the codes, and each maps back to its symbol.
   */
  lemma ReverseIsInverse(root: Node)
    requires Distinct(root)
    ensures var t := BuildCodes(Some(root));
      (forall s :: s in t.codes ==> t.codes[s] in t.reverse && t.reverse[t.codes[s]] == s) &&
      (forall c :: c in t.reverse ==> t.reverse[c] in t.codes && t.codes[t.reverse[c]] == c)
  {
    var t := BuildCodes(Some(root));
    forall s | s in t.codes
      ensures t.codes[s] in t.reverse && t.reverse[t.codes[s]] == s
    {
      ReverseCoversCode(root, "", s);
    }
    forall c | c in t.reverse
      ensures t.reverse[c] in t.codes && t.codes[t.reverse[c]] == c
    {
      var s := t.reverse[c];
      ReversePath(root, "", c);
      assert c[0..] == c;
      ReachedIsMember(root, c, s);
      LeafPathUnique(root, c, t.codes[s], s);
    }
  }
}
