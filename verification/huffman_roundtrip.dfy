/**
 * The lossless round trip of both codec variants: decoding what was encoded
 * with the code table of the tree built from the same data gives the data
 * back, for empty data (null root), data with one distinct symbol (a lone
 * leaf, every code "0") and all other data.
 */
module HuffmanRoundTrip {
  import opened Wrappers
  import opened HuffmanTree
  import opened HuffmanCodes
  import opened HuffmanBuild
  import opened BitPacking
  import opened HuffmanCodec

  /** Concatenated codes, read from the front. */
  lemma {:induction false} CodeStringCons<S>(data: seq<S>, codeMap: map<S, string>)
    requires data != []
    ensures CodeString(data, codeMap) == Lookup(codeMap, data[0]) + CodeString(data[1..], codeMap)
    decreases |data|
  {
    var n := |data| - 1;
    if n > 0 {
      var init, tail := data[..n], data[1..];
      CodeStringCons(init, codeMap);
      var a, b, c := Lookup(codeMap, data[0]), CodeString(init[1..], codeMap), Lookup(codeMap, data[n]);
      assert CodeString(init, codeMap) == a + b by { assert init[0] == data[0]; }
      assert CodeString(data, codeMap) == CodeString(init, codeMap) + c by { assert data[..n] == init; }
      assert CodeString(tail, codeMap) == b + c by {
        assert tail[..n - 1] == init[1..];
        assert tail[n - 1] == data[n];
      }
      Regroup(CodeString(data, codeMap), CodeString(init, codeMap), CodeString(tail, codeMap), a, b, c);
    } else {
      assert data[1..] == [];
    }
  }

  /** Reassociating three concatenated strings. */
  lemma Regroup(whole: string, init: string, tail: string, a: string, b: string, c: string)
    requires whole == init + c && init == a + b && tail == b + c
    ensures whole == a + tail
  {
  }

  /**
   * Walking the bits of a code that leads from `cur` to the leaf of `s`
   * emits exactly `s` and restarts at the root for whatever follows.
   */
  lemma {:induction false} WalkCode<S>(root: Tree<S>, cur: Tree<S>, p: seq<bool>, rest: seq<bool>, limit: nat, s: S)
    requires root.Node? && cur.Node? && LeadsTo(cur, p, s) && limit > 0
    ensures Walk(root, cur, p + rest, limit) == [s] + Walk(root, root, rest, limit - 1)
    decreases |p|
  {
    assert p != [];
    var next := Child(cur, p[0]);
    assert (p + rest)[0] == p[0] && (p + rest)[1..] == p[1..] + rest;
    assert Follow(cur, p) == Follow(next, p[1..]);
    if next.Leaf? {
      assert p[1..] == [];
      assert p[1..] + rest == rest;
    } else {
      WalkCode(root, next, p[1..], rest, limit, s);
    }
  }

  /** The first code of the concatenation is walked first. */
  lemma WalkFirstCode<S>(t: Tree<S>, codeMap: map<S, string>, data: seq<S>, pad: seq<bool>, limit: nat)
    requires t.Node? && data != [] && limit > 0
    requires data[0] in codeMap && LeadsTo(t, Bits(codeMap[data[0]]), data[0])
    ensures Walk(t, t, Bits(CodeString(data, codeMap)) + pad, limit)
         == [data[0]] + Walk(t, t, Bits(CodeString(data[1..], codeMap)) + pad, limit - 1)
  {
    var code := codeMap[data[0]];
    var tail := CodeString(data[1..], codeMap);
    CodeStringCons(data, codeMap);
    BitsAppend(code, tail);
    assert Bits(CodeString(data, codeMap)) + pad == Bits(code) + (Bits(tail) + pad);
    WalkCode(t, t, Bits(code), Bits(tail) + pad, limit, data[0]);
  }

  /** With no data there are no codes, and the walk over the padding alone emits nothing. */
  lemma WalkNoCodes<S>(t: Tree<S>, codeMap: map<S, string>, data: seq<S>, pad: seq<bool>, limit: nat)
    requires t.Node? && data == [] && (limit == 0 || pad == [])
    ensures Walk(t, t, Bits(CodeString(data, codeMap)) + pad, limit) == data
  {
    assert Bits(CodeString(data, codeMap)) + pad == pad;
    WalkDone(t, t, pad, limit);
  }

  /** What holds of every symbol of the data holds of every symbol of its tail. */
  lemma CodesLeadTail<S>(t: Tree<S>, codeMap: map<S, string>, data: seq<S>)
    requires data != []
    requires forall k :: 0 <= k < |data| ==> data[k] in codeMap && LeadsTo(t, Bits(codeMap[data[k]]), data[k])
    ensures forall k :: 0 <= k < |data[1..]| ==> data[1..][k] in codeMap && LeadsTo(t, Bits(codeMap[data[1..][k]]), data[1..][k])
  {
    forall k | 0 <= k < |data[1..]|
      ensures data[1..][k] in codeMap && LeadsTo(t, Bits(codeMap[data[1..][k]]), data[1..][k])
    {
      assert data[1..][k] == data[k + 1];
    }
  }

  /**
   * Walking the concatenated codes of `data` from the root gives `data` back,
   * whatever padding follows when the walk is bounded by `|data|`, and with a
   * looser bound when nothing follows.
   */
  lemma {:induction false} WalkCodes<S>(t: Tree<S>, codeMap: map<S, string>, data: seq<S>, pad: seq<bool>, limit: nat)
    requires t.Node?
    requires forall k :: 0 <= k < |data| ==> data[k] in codeMap && LeadsTo(t, Bits(codeMap[data[k]]), data[k])
    requires limit == |data| || (pad == [] && limit >= |data|)
    ensures Walk(t, t, Bits(CodeString(data, codeMap)) + pad, limit) == data
    decreases |data|
  {
    if data == [] {
      WalkNoCodes(t, codeMap, data, pad, limit);
    } else {
      var others := data[1..];
      WalkFirstCode(t, codeMap, data, pad, limit);
      CodesLeadTail(t, codeMap, data);
      WalkCodes(t, codeMap, others, pad, limit - 1);
      var tail := Walk(t, t, Bits(CodeString(others, codeMap)) + pad, limit - 1);
      assert tail == others;
      assert [data[0]] + tail == data;
    }
  }

  /**
   * What the table of a built tree gives the data it was built from: with a
   * lone leaf every symbol of the data is that leaf's and gets "0"; otherwise
   * every symbol of the data has a code leading from the root to its leaf.
   */
  lemma TableCoversData<S>(root: Tree<S>, data: seq<S>)
    requires DistinctLeaves(root)
    requires forall s :: Syms(root)[s] == (if s in data then 1 else 0)
    ensures var m := GetCodeMap(Some(root));
      && (forall k :: 0 <= k < |data| ==> data[k] in m && IsBinary(m[data[k]]))
      && (root.Leaf? ==> forall k :: 0 <= k < |data| ==> data[k] == root.sym && m[data[k]] == "0")
      && (root.Node? ==> forall k :: 0 <= k < |data| ==> LeadsTo(root, Bits(m[data[k]]), data[k]))
  {
    CodeMapSpec(root);
    forall k | 0 <= k < |data| ensures data[k] in Syms(root) {
      assert Syms(root)[data[k]] == 1;
    }
  }

  /** Every symbol of the data has a code in the table of the tree built from it. */
  lemma PackedTableCovers(data: seq<int>)
    ensures forall k :: 0 <= k < |data| ==> data[k] in GetCodeMap(BuildHuffmanTree(data))
  {
    var root := BuildHuffmanTree(data);
    if root.Some? {
      TableCoversData(root.value, data);
    }
  }

  /**
   * The packed round trip: for a tree whose leaves are exactly the distinct
   * symbols of `data` (what `buildHuffmanTree(data)` returns), once the code
   * bits of `data` under the tree's table are packed into bytes, followed by
   * any padding, decoding `|data|` symbols gives `data` back.
   */
  lemma PackedRoundTrip<S>(root: Option<Tree<S>>, data: seq<S>, encoded: seq<byte>, pad: seq<bool>)
    requires root.None? <==> data == []
    requires root.Some? ==> DistinctLeaves(root.value)
    requires root.Some? ==> forall s :: Syms(root.value)[s] == (if s in data then 1 else 0)
    requires Unpack(encoded) == Bits(CodeString(data, GetCodeMap(root))) + pad
    ensures DecodedPacked(encoded, root, |data|) == data
  {
    if root.Some? {
      var t := root.value;
      TableCoversData(t, data);
      if t.Leaf? {
        RepeatAll(t.sym, data);
      } else {
        WalkCodes(t, GetCodeMap(root), data, pad, |data|);
      }
    }
  }

  /** A sequence holding one value throughout is that value repeated. */
  lemma RepeatAll<S>(x: S, data: seq<S>)
    requires forall k :: 0 <= k < |data| ==> data[k] == x
    ensures Repeat(x, |data|) == data
  {
  }

  /**
   * One run of the packed codec as the timing harness performs it: build the
   * tree, take its table, encode, and decode as many symbols as there were.
   */
  method PackedPipeline(data: seq<int>) returns (decoded: seq<int>)
    ensures decoded == data
  {
    var root := BuildHuffmanTree(data);
    var codeMap := GetCodeMap(root);
    PackedTableCovers(data);
    var r := Encode(data, codeMap);
    assert r.Success?;
    var encoded := r.value;
    ghost var bits := Bits(CodeString(data, codeMap));
    PackedRoundTrip(root, data, encoded, Zeros(PadLength(|bits|)));
    decoded := Decode(encoded, root, |data|);
  }

  /** For a string of '0'/'1' the text decoder's steps are the code's bits. */
  lemma {:induction false} TextBitsOfBinary(code: string)
    requires IsBinary(code)
    ensures TextBits(code) == Bits(code)
    decreases |code|
  {
    if code != [] {
      var n := |code| - 1;
      TextBitsOfBinary(code[..n]);
      BitsAppend(code[..n], [code[n]]);
      assert code[..n] + [code[n]] == code;
    }
  }

  /** Concatenated binary codes form a binary string. */
  lemma {:induction false} CodeStringBinary<S>(data: seq<S>, codeMap: map<S, string>)
    requires forall k :: 0 <= k < |data| ==> IsBinary(Lookup(codeMap, data[k]))
    ensures IsBinary(CodeString(data, codeMap))
    decreases |data|
  {
    if data != [] {
      var n := |data| - 1;
      CodeStringBinary(data[..n], codeMap);
    }
  }

  /** One-character codes concatenate to one character per symbol. */
  lemma {:induction false} CodeStringUnitLength<S>(data: seq<S>, codeMap: map<S, string>)
    requires forall k :: 0 <= k < |data| ==> |Lookup(codeMap, data[k])| == 1
    ensures |CodeString(data, codeMap)| == |data|
    decreases |data|
  {
    if data != [] {
      var n := |data| - 1;
      CodeStringUnitLength(data[..n], codeMap);
    }
  }

  /**
   * The text round trip of `main`: for a tree whose leaves are exactly the
   * distinct symbols of `input` (what `buildHuffmanTree(input)` returns), the
   * string of codes of `input` under the tree's table decodes to `input`.
   */
  lemma TextRoundTrip<S>(root: Option<Tree<S>>, input: seq<S>)
    requires root.None? <==> input == []
    requires root.Some? ==> DistinctLeaves(root.value)
    requires root.Some? ==> forall s :: Syms(root.value)[s] == (if s in input then 1 else 0)
    ensures DecodedText(CodeString(input, GetCodeMap(root)), root) == input
  {
    var m := GetCodeMap(root);
    var encoded := CodeString(input, m);
    if root.Some? {
      var t := root.value;
      TableCoversData(t, input);
      if t.Leaf? {
        CodeStringUnitLength(input, m);
      } else {
        CodeStringBinary(input, m);
        TextBitsOfBinary(encoded);
        WalkCodes(t, m, input, [], |input|);
        assert Bits(encoded) + [] == Bits(encoded);
        WalkCodes(t, m, input, [], |encoded|);
      }
    }
  }

  /** `encoded += codeMap[c]` for each character of the input, in order. */
  method EncodeText(input: seq<uchar>, codeMap: map<uchar, string>) returns (encoded: string)
    ensures encoded == CodeString(input, codeMap)
  {
    encoded := "";
    for i := 0 to |input|
      invariant encoded == CodeString(input[..i], codeMap)
    {
      assert input[..i + 1][..i] == input[..i];
      encoded := encoded + Lookup(codeMap, input[i]);
    }
    assert input[..|input|] == input;
  }

  /** `main` of the text variant: build, take the table, encode, decode; the input comes back. */
  method TextPipeline(input: seq<uchar>) returns (decoded: seq<uchar>)
    ensures decoded == input
  {
    var root := BuildHuffmanTreeBytes(input);
    var codeMap := GetCodeMap(root);
    var encoded := EncodeText(input, codeMap);
    TextRoundTrip(root, input);
    decoded := DecodeText(encoded, root);
  }
}
