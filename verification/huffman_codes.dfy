/**
 * The code table: `generateCodes` / `getCodeMap` of both codec variants.
 * A symbol's code is the path from the root to its leaf, '0' for a step to the
 * left child and '1' for a step to the right child; a lone root leaf gets "0".
 */
module HuffmanCodes {
  import opened Wrappers
  import opened HuffmanTree

  /**
   * `generateCodes(node, path, codeMap)`: depth first, left subtree before
   * right subtree, recording the accumulated path at each leaf.
   */
  function GenerateCodes<S>(t: Tree<S>, path: string, codeMap: map<S, string>): map<S, string>
  {
    match t
    case Leaf(s, _) => codeMap[s := if path == "" then "0" else path]
    case Node(_, l, r) => GenerateCodes(r, path + "1", GenerateCodes(l, path + "0", codeMap))
  }

  /** `getCodeMap(root)`; a null root yields the empty table. */
  function GetCodeMap<S>(root: Option<Tree<S>>): map<S, string>
  {
    if root.None? then map[] else GenerateCodes(root.value, "", map[])
  }

  /** The bits a code string packs to: '1' is a set bit, anything else a clear bit. */
  function Bits(code: string): (bits: seq<bool>)
    ensures |bits| == |code|
    ensures forall i {:trigger bits[i]} :: 0 <= i < |code| ==> bits[i] == (code[i] == '1')
  {
    if code == [] then [] else [code[0] == '1'] + Bits(code[1..])
  }

  predicate IsBinary(code: string)
  {
    forall i :: 0 <= i < |code| ==> code[i] == '0' || code[i] == '1'
  }

  predicate IsPrefix(a: string, b: string)
  {
    |a| <= |b| && b[..|a|] == a
  }

  /** Walking `bits` from `t` ends exactly on a leaf labelled `s`. */
  ghost predicate LeadsTo<S>(t: Tree<S>, bits: seq<bool>, s: S)
  {
    var n := Follow(t, bits);
    n.Some? && n.value.Leaf? && n.value.sym == s
  }

  /** No code of the table is a prefix of another symbol's code. */
  ghost predicate PrefixFree<S>(codeMap: map<S, string>)
  {
    forall a, b :: a in codeMap && b in codeMap && a != b ==> !IsPrefix(codeMap[a], codeMap[b])
  }

  lemma BitsAppend(a: string, b: string)
    ensures Bits(a + b) == Bits(a) + Bits(b)
  {
  }

  /** `generateCodes` adds an entry for exactly the symbols of the subtree it walks. */
  lemma {:induction false} CodesDomain<S>(t: Tree<S>, path: string, acc: map<S, string>, s: S)
    ensures s in GenerateCodes(t, path, acc) <==> s in acc || s in Syms(t)
  {
    match t
    case Leaf(_, _) =>
    case Node(_, l, r) =>
      CodesDomain(l, path + "0", acc, s);
      CodesDomain(r, path + "1", GenerateCodes(l, path + "0", acc), s);
  }

  /** Entries for symbols outside the walked subtree are left as they were. */
  lemma {:induction false} CodesKeep<S>(t: Tree<S>, path: string, acc: map<S, string>, s: S)
    requires s in acc && s !in Syms(t)
    ensures s in GenerateCodes(t, path, acc) && GenerateCodes(t, path, acc)[s] == acc[s]
  {
    match t
    case Leaf(_, _) =>
    case Node(_, l, r) =>
      CodesKeep(l, path + "0", acc, s);
      CodesKeep(r, path + "1", GenerateCodes(l, path + "0", acc), s);
  }

  /**
   * `code` is what a walk that reached `t` by `path` records for `s`: `path`
   * followed by further steps, all '0'/'1', that lead from `t` to the leaf of `s`.
   */
  ghost predicate CodeFor<S>(t: Tree<S>, path: string, code: string, s: S)
  {
    && IsBinary(code) && |path| <= |code| && code[..|path|] == path
    && LeadsTo(t, Bits(code[|path|..]), s)
  }

  /** The code `generateCodes` records for a symbol of the subtree it walks. */
  lemma {:induction false} CodeOf<S>(t: Tree<S>, path: string, acc: map<S, string>, s: S)
    requires DistinctLeaves(t) && IsBinary(path)
    requires t.Node? || path != ""
    requires s in Syms(t)
    ensures s in GenerateCodes(t, path, acc)
    ensures CodeFor(t, path, GenerateCodes(t, path, acc)[s], s)
  {
    match t
    case Leaf(_, _) =>
      CodeOfLeaf(t, path, acc, s);
    case Node(_, l, r) =>
      if s in Syms(l) {
        CodeOf(l, path + "0", acc, s);
        CodeOfLeft(t, path, acc, s);
      } else {
        var m1 := GenerateCodes(l, path + "0", acc);
        CodeOf(r, path + "1", m1, s);
        CodeOfRight(t, path, acc, s);
      }
  }

  /** The code of a symbol under the left child survives the walk of the right child. */
  lemma CodeOfLeft<S>(t: Tree<S>, path: string, acc: map<S, string>, s: S)
    requires t.Node? && DistinctLeaves(t) && IsBinary(path) && s in Syms(t.left)
    requires var m1 := GenerateCodes(t.left, path + "0", acc);
      s in m1 && CodeFor(t.left, path + "0", m1[s], s)
    ensures s in GenerateCodes(t, path, acc)
    ensures CodeFor(t, path, GenerateCodes(t, path, acc)[s], s)
  {
    var m1 := GenerateCodes(t.left, path + "0", acc);
    assert s !in Syms(t.right);
    CodesKeep(t.right, path + "1", m1, s);
    ExtendCode(t, path, m1[s], s, false);
  }

  /** The code of a symbol under the right child is the one the right child's walk records. */
  lemma CodeOfRight<S>(t: Tree<S>, path: string, acc: map<S, string>, s: S)
    requires t.Node? && IsBinary(path)
    requires var m := GenerateCodes(t.right, path + "1", GenerateCodes(t.left, path + "0", acc));
      s in m && CodeFor(t.right, path + "1", m[s], s)
    ensures s in GenerateCodes(t, path, acc)
    ensures CodeFor(t, path, GenerateCodes(t, path, acc)[s], s)
  {
    var m := GenerateCodes(t.right, path + "1", GenerateCodes(t.left, path + "0", acc));
    ExtendCode(t, path, m[s], s, true);
  }

  /** At a leaf reached by a non-empty path, the path itself is recorded. */
  lemma CodeOfLeaf<S>(t: Tree<S>, path: string, acc: map<S, string>, s: S)
    requires t.Leaf? && IsBinary(path) && path != "" && s in Syms(t)
    ensures s in GenerateCodes(t, path, acc)
    ensures CodeFor(t, path, GenerateCodes(t, path, acc)[s], s)
  {
    assert s == t.sym;
    var code := GenerateCodes(t, path, acc)[s];
    assert code == path;
    assert Bits(code[|path|..]) == [];
  }

  /** A code for `s` from a child, reached by one more step, is a code for `s` from the parent. */
  lemma ExtendCode<S>(t: Tree<S>, path: string, code: string, s: S, bit: bool)
    requires t.Node? && IsBinary(path)
    requires CodeFor(Child(t, bit), path + [if bit then '1' else '0'], code, s)
    ensures CodeFor(t, path, code, s)
  {
    var step := [if bit then '1' else '0'];
    var rest := code[|path| + 1..];
    assert code[..|path| + 1] == path + step;
    assert code[..|path|] == path;
    assert code[|path|..] == step + rest;
    BitsAppend(step, rest);
  }

  /**
   * The table of a tree with distinct leaves has one entry per leaf symbol.
   * Every code is a non-empty string of '0'/'1'; a lone root leaf gets "0";
   * otherwise each code leads from the root to its symbol's leaf, and the
   * table is prefix free.
   */
  lemma CodeMapSpec<S>(t: Tree<S>)
    requires DistinctLeaves(t)
    ensures var m := GetCodeMap(Some(t));
      && (forall s :: s in m <==> s in Syms(t))
      && (forall s :: s in m ==> IsBinary(m[s]) && |m[s]| > 0)
      && (t.Leaf? ==> m == map[t.sym := "0"])
      && (t.Node? ==> forall s :: s in m ==> LeadsTo(t, Bits(m[s]), s))
      && PrefixFree(m)
  {
    var m := GetCodeMap(Some(t));
    if t.Node? {
      assert m == GenerateCodes(t, "", map[]);
      NodeCodes(t);
      LeadingCodesPrefixFree(t, m);
    } else {
      LeafCodeMap(t);
    }
  }

  /** A lone leaf gets the table holding "0" for its symbol. */
  lemma LeafCodeMap<S>(t: Tree<S>)
    requires t.Leaf?
    ensures var m := GetCodeMap(Some(t));
      && m == map[t.sym := "0"]
      && (forall s :: s in m <==> s in Syms(t))
      && (forall s :: s in m ==> IsBinary(m[s]) && |m[s]| > 0)
      && PrefixFree(m)
  {
    var m := GetCodeMap(Some(t));
    assert m == map[t.sym := "0"];
    assert IsBinary("0");
    forall s ensures s in m <==> s in Syms(t) {
      assert s in Syms(t) <==> s == t.sym;
    }
  }

  /** The table of an internal root: one code per leaf, each leading from the root to its leaf. */
  lemma NodeCodes<S>(t: Tree<S>)
    requires DistinctLeaves(t) && t.Node?
    ensures var m := GenerateCodes(t, "", map[]);
      && (forall s :: s in m <==> s in Syms(t))
      && (forall s :: s in m ==> IsBinary(m[s]) && |m[s]| > 0 && LeadsTo(t, Bits(m[s]), s))
  {
    var m := GenerateCodes(t, "", map[]);
    forall s ensures s in m <==> s in Syms(t) {
      CodesDomain(t, "", map[], s);
    }
    forall s | s in m ensures IsBinary(m[s]) && |m[s]| > 0 && LeadsTo(t, Bits(m[s]), s) {
      CodesDomain(t, "", map[], s);
      CodeOf(t, "", map[], s);
      assert m[s][|""|..] == m[s];
      assert CodeFor(t, "", m[s], s);
      assert m[s] != [];
    }
  }

  /** Codes that each lead from the root to their own symbol's leaf are prefix free. */
  lemma LeadingCodesPrefixFree<S>(t: Tree<S>, m: map<S, string>)
    requires forall s :: s in m ==> LeadsTo(t, Bits(m[s]), s)
    ensures PrefixFree(m)
  {
    forall a, b | a in m && b in m && a != b ensures !IsPrefix(m[a], m[b]) {
      if IsPrefix(m[a], m[b]) {
        var rest := m[b][|m[a]|..];
        assert m[b] == m[a] + rest;
        BitsAppend(m[a], rest);
        FollowAppend(t, Bits(m[a]), Bits(rest));
        assert false;
      }
    }
  }
}
