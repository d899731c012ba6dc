/**
 * Encoding and decoding with a built tree, for both codec variants:
 * the packed variant of assignment-1/question-7/question-7-testing.cpp
 * (int symbols, code bits packed eight to a byte, decode told how many
 * symbols to produce) and the text variant of question-7.cpp (byte symbols,
 * the encoding a string of '0'/'1' characters).
 */
module HuffmanCodec {
  import opened Wrappers
  import opened HuffmanTree
  import opened HuffmanCodes
  import opened HuffmanBuild
  import opened BitPacking

  /** `codeMap[s]` of an `unordered_map`: a missing key reads as the empty string. */
  function Lookup<S>(codeMap: map<S, string>, s: S): string
  {
    if s in codeMap then codeMap[s] else ""
  }

  /** The codes of `data`, one after the other. */
  function CodeString<S>(data: seq<S>, codeMap: map<S, string>): string
  {
    if data == [] then "" else CodeString(data[..|data| - 1], codeMap) + Lookup(codeMap, data[|data| - 1])
  }

  /**
   * The decoding walk shared by both variants. From node `cur` each bit takes
   * a child (false: left, true: right); reaching a leaf emits its symbol and
   * restarts at `root`. The walk stops when the bits run out or `limit`
   * symbols have been emitted; the steps of a code cut short are dropped.
   */
  function Walk<S>(root: Tree<S>, cur: Tree<S>, bits: seq<bool>, limit: nat): (out: seq<S>)
    requires root.Node? && cur.Node?
    ensures |out| <= limit && |out| <= |bits|
    decreases |bits|
  {
    if limit == 0 || bits == [] then []
    else
      var next := Child(cur, bits[0]);
      if next.Leaf? then [next.sym] + Walk(root, root, bits[1..], limit - 1)
      else Walk(root, next, bits[1..], limit)
  }

  /** `n` copies of `x`: `resize(n, x)` of an empty vector. */
  function Repeat<S>(x: S, n: nat): (r: seq<S>)
    ensures |r| == n && forall k :: 0 <= k < n ==> r[k] == x
  {
    if n == 0 then [] else Repeat(x, n - 1) + [x]
  }

  // ---------------------------------------------------------------------------
  // Packed variant (question-7-testing.cpp)
  // ---------------------------------------------------------------------------

  /** `codeMap.at(sym)` throws `std::out_of_range` for a symbol without a code. */
  datatype EncodeError = MissingCode(sym: int)

  /**
   * The state of `encode` after writing the bit stream `written`: the full
   * bytes pushed so far, the partly filled `currentByte` and the number of its
   * bits already written.
   */
  ghost predicate Packed(encoded: seq<byte>, currentByte: byte, bitPos: nat, written: seq<bool>)
  {
    && bitPos < 8 && bitPos <= |written| && (|written| - bitPos) % 8 == 0
    && Unpack(encoded) == written[..|written| - bitPos]
    && currentByte == ByteOf(written[|written| - bitPos..])
  }

  /** Writing one more bit into a byte that is not yet full sets its mask for a set bit. */
  lemma ByteOfSnoc(partial: seq<bool>, bit: bool)
    requires |partial| < 8
    ensures ByteOf(partial + [bit]) == if bit then ByteOf(partial) | Mask(|partial|) else ByteOf(partial)
  {
    var w := partial + [bit];
    assert w[..|w| - 1] == partial;
    if !bit {
      assert ByteOf(partial) | 0 == ByteOf(partial);
    }
  }

  /**
   * One turn of the inner loop of `encode`: a set bit ORs the mask of
   * position `bitPos` into the current byte; the eighth bit pushes the byte
   * and starts a fresh one.
   */
  function WriteBit(encoded: seq<byte>, currentByte: byte, bitPos: nat, bit: bool): (seq<byte>, byte, nat)
    requires bitPos < 8
  {
    var b := if bit then currentByte | Mask(bitPos) else currentByte;
    if bitPos + 1 == 8 then (encoded + [b], 0, 0) else (encoded, b, bitPos + 1)
  }

  /** One turn of the inner loop of `encode` keeps `Packed`. */
  lemma PushBit(encoded: seq<byte>, currentByte: byte, bitPos: nat, written: seq<bool>, bit: bool)
    requires Packed(encoded, currentByte, bitPos, written)
    ensures var next := WriteBit(encoded, currentByte, bitPos, bit);
      Packed(next.0, next.1, next.2, written + [bit])
  {
    if bitPos == 7 {
      PushLastBit(encoded, currentByte, written, bit);
    } else {
      PushInnerBit(encoded, currentByte, bitPos, written, bit);
    }
  }

  /** The eighth bit of a byte completes it: the byte is pushed and the stream grows by its bits. */
  lemma PushLastBit(encoded: seq<byte>, currentByte: byte, written: seq<bool>, bit: bool)
    requires Packed(encoded, currentByte, 7, written)
    ensures var next := WriteBit(encoded, currentByte, 7, bit);
      Packed(next.0, next.1, next.2, written + [bit])
  {
    var b := if bit then currentByte | Mask(7) else currentByte;
    LastBitPacked(encoded, currentByte, written, bit, b);
    assert WriteBit(encoded, currentByte, 7, bit) == (encoded + [b], 0, 0);
  }

  /** The byte completed by the eighth bit, pushed, leaves the stream packed. */
  lemma LastBitPacked(encoded: seq<byte>, currentByte: byte, written: seq<bool>, bit: bool, b: byte)
    requires Packed(encoded, currentByte, 7, written)
    requires b == if bit then currentByte | Mask(7) else currentByte
    ensures Packed(encoded + [b], 0, 0, written + [bit])
  {
    NextPartial(currentByte, 7, written, bit);
    CompleteByte(encoded, b, written, bit);
  }

  /** Pushing the byte of the last eight written bits leaves no partial byte. */
  lemma CompleteByte(encoded: seq<byte>, b: byte, written: seq<bool>, bit: bool)
    requires 7 <= |written| && Unpack(encoded) == written[..|written| - 7]
    requires b == ByteOf((written + [bit])[|written| - 7..])
    ensures Packed(encoded + [b], 0, 0, written + [bit])
  {
    var w := written + [bit];
    var n := |written| - 7;
    assert w[..n] == written[..n];
    PushFullByte(encoded, written[..n], w[n..]);
    assert w == written[..n] + w[n..];
    FullState(encoded + [b], w);
  }

  /** Any bit but a byte's eighth goes into the current byte. */
  lemma PushInnerBit(encoded: seq<byte>, currentByte: byte, bitPos: nat, written: seq<bool>, bit: bool)
    requires Packed(encoded, currentByte, bitPos, written) && bitPos < 7
    ensures var next := WriteBit(encoded, currentByte, bitPos, bit);
      Packed(next.0, next.1, next.2, written + [bit])
  {
    var b := if bit then currentByte | Mask(bitPos) else currentByte;
    NextPartial(currentByte, bitPos, written, bit);
    var w := written + [bit];
    var n := |written| - bitPos;
    assert w[..n] == written[..n];
    PartialState(encoded, b, bitPos + 1, w, n);
    assert WriteBit(encoded, currentByte, bitPos, bit) == (encoded, b, bitPos + 1);
  }

  /** The current byte after one more bit holds the bits written since the last full byte. */
  lemma NextPartial(currentByte: byte, bitPos: nat, written: seq<bool>, bit: bool)
    requires bitPos < 8 && bitPos <= |written| && currentByte == ByteOf(written[|written| - bitPos..])
    ensures var n := |written| - bitPos;
      (if bit then currentByte | Mask(bitPos) else currentByte) == ByteOf((written + [bit])[n..])
  {
    var n := |written| - bitPos;
    var partial := written[n..];
    assert (written + [bit])[n..] == partial + [bit];
    ByteOfSnoc(partial, bit);
  }

  lemma PartialState(encoded: seq<byte>, b: byte, bitPos: nat, w: seq<bool>, n: nat)
    requires bitPos < 8 && n + bitPos == |w| && n % 8 == 0
    requires Unpack(encoded) == w[..n] && b == ByteOf(w[n..])
    ensures Packed(encoded, b, bitPos, w)
  {
  }

  lemma FullState(encoded: seq<byte>, w: seq<bool>)
    requires Unpack(encoded) == w
    ensures Packed(encoded, 0, 0, w)
  {
    assert w[..|w|] == w && w[|w|..] == [];
    assert |w| % 8 == 0;
  }

  /** Pushing a byte that holds eight written bits appends them to the stream. */
  lemma PushFullByte(encoded: seq<byte>, full: seq<bool>, eight: seq<bool>)
    requires Unpack(encoded) == full && |eight| == 8
    ensures Unpack(encoded + [ByteOf(eight)]) == full + eight
  {
    UnpackSnoc(encoded, ByteOf(eight));
    ByteOfRoundTrip(eight);
    assert eight + Zeros(0) == eight;
  }

  /** The bits of consecutive codes are the bits of one code after the other. */
  lemma CodeStringSnoc<S>(data: seq<S>, codeMap: map<S, string>, i: nat)
    requires i < |data|
    ensures Bits(CodeString(data[..i + 1], codeMap)) == Bits(CodeString(data[..i], codeMap)) + Bits(Lookup(codeMap, data[i]))
  {
    assert data[..i + 1][..i] == data[..i];
    BitsAppend(CodeString(data[..i], codeMap), Lookup(codeMap, data[i]));
  }

  /**
   * `encode(data, codeMap)`: the code of each symbol in turn, written bit by
   * bit from the most significant bit of each byte, the last byte padded with
   * clear bits. A symbol without a code aborts the encoding.
   */
  method Encode(data: seq<int>, codeMap: map<int, string>) returns (r: Result<seq<byte>, EncodeError>)
    ensures r.Success? <==> forall k :: 0 <= k < |data| ==> data[k] in codeMap
    ensures r.Failure? ==> exists k :: 0 <= k < |data| && data[k] == r.error.sym && data[k] !in codeMap
    ensures r.Success? ==>
      var bits := Bits(CodeString(data, codeMap));
      Unpack(r.value) == bits + Zeros(PadLength(|bits|))
  {
    var encoded: seq<byte> := [];
    var currentByte: byte := 0;
    var bitPos: nat := 0;
    var i := 0;
    assert Packed(encoded, currentByte, bitPos, Bits(CodeString(data[..0], codeMap)));
    while i < |data|
      invariant 0 <= i <= |data|
      invariant forall k :: 0 <= k < i ==> data[k] in codeMap
      invariant Packed(encoded, currentByte, bitPos, Bits(CodeString(data[..i], codeMap)))
    {
      var sym := data[i];
      if sym !in codeMap {
        return Failure(MissingCode(sym));
      }
      var code := codeMap[sym];
      encoded, currentByte, bitPos := WriteCode(encoded, currentByte, bitPos, code, Bits(CodeString(data[..i], codeMap)));
      CodeStringSnoc(data, codeMap, i);
      assert Lookup(codeMap, data[i]) == code;
      CodedPrefix(data, codeMap, i);
      i := i + 1;
    }
    assert data[..|data|] == data;
    ghost var written := Bits(CodeString(data, codeMap));
    Flush(encoded, currentByte, bitPos, written);
    if bitPos > 0 {
      encoded := encoded + [currentByte];
    }
    return Success(encoded);
  }

  /** A coded prefix followed by a coded symbol is a longer coded prefix. */
  lemma CodedPrefix<S>(data: seq<S>, codeMap: map<S, string>, i: nat)
    requires i < |data| && data[i] in codeMap
    requires forall k :: 0 <= k < i ==> data[k] in codeMap
    ensures forall k :: 0 <= k < i + 1 ==> data[k] in codeMap
  {
  }

  /** Pushing the partly filled last byte, if any, leaves the stream padded with clear bits. */
  lemma Flush(encoded: seq<byte>, currentByte: byte, bitPos: nat, written: seq<bool>)
    requires Packed(encoded, currentByte, bitPos, written)
    ensures Unpack(if bitPos > 0 then encoded + [currentByte] else encoded) == written + Zeros(PadLength(|written|))
  {
    var n := |written| - bitPos;
    if bitPos > 0 {
      UnpackSnoc(encoded, currentByte);
      ByteOfRoundTrip(written[n..]);
      assert written == written[..n] + written[n..];
      PadPartial(n, bitPos);
    } else {
      assert written[..|written|] == written;
      assert written + Zeros(0) == written;
    }
  }

  /** A stream ending `bitPos` bits into a byte needs the rest of that byte as padding. */
  lemma PadPartial(n: nat, bitPos: nat)
    requires n % 8 == 0 && 0 < bitPos < 8
    ensures PadLength(n + bitPos) == 8 - bitPos
  {
    var q := n / 8;
    assert n + bitPos == 8 * q + bitPos;
    assert (n + bitPos) % 8 == bitPos;
  }

  lemma CodePrefixBits(written: seq<bool>, code: string, j: nat)
    requires j < |code|
    ensures written + Bits(code[..j + 1]) == (written + Bits(code[..j])) + [code[j] == '1']
  {
    BitsAppend(code[..j], [code[j]]);
    assert code[..j + 1] == code[..j] + [code[j]];
  }

  /** The inner loop of `encode`: one code written character by character into the packing state. */
  method WriteCode(encoded: seq<byte>, currentByte: byte, bitPos: nat, code: string, ghost written: seq<bool>)
    returns (encoded': seq<byte>, currentByte': byte, bitPos': nat)
    requires Packed(encoded, currentByte, bitPos, written)
    ensures Packed(encoded', currentByte', bitPos', written + Bits(code))
  {
    encoded', currentByte', bitPos' := encoded, currentByte, bitPos;
    var j := 0;
    assert written + Bits(code[..0]) == written;
    while j < |code|
      invariant 0 <= j <= |code|
      invariant Packed(encoded', currentByte', bitPos', written + Bits(code[..j]))
    {
      ghost var w := written + Bits(code[..j]);
      var bit := code[j] == '1';
      PushBit(encoded', currentByte', bitPos', w, bit);
      var next := WriteBit(encoded', currentByte', bitPos', bit);
      encoded', currentByte', bitPos' := next.0, next.1, next.2;
      CodePrefixBits(written, code, j);
      j := j + 1;
    }
    assert code[..|code|] == code;
  }

  /**
   * What `decode(encoded, root, originalSize)` returns: nothing for a null
   * root, `originalSize` copies of the symbol of a lone leaf root, and otherwise
   * the walk over the stream's bits that stops after `originalSize` symbols or
   * when the bytes run out.
   */
  function DecodedPacked<S>(encoded: seq<byte>, root: Option<Tree<S>>, originalSize: nat): (out: seq<S>)
    ensures |out| <= originalSize
  {
    if root.None? then []
    else if root.value.Leaf? then Repeat(root.value.sym, originalSize)
    else Walk(root.value, root.value, Unpack(encoded), originalSize)
  }

  /** A walk that has emitted its quota, or has no bits left, emits nothing more. */
  lemma WalkDone<S>(root: Tree<S>, cur: Tree<S>, bits: seq<bool>, limit: nat)
    requires root.Node? && cur.Node? && (limit == 0 || bits == [])
    ensures Walk(root, cur, bits, limit) == []
  {
  }

  /** One step of the walk, taken at position `p` of the bit stream. */
  lemma WalkStep<S>(root: Tree<S>, cur: Tree<S>, bits: seq<bool>, p: nat, limit: nat)
    requires root.Node? && cur.Node? && p < |bits| && limit > 0
    ensures Walk(root, cur, bits[p..], limit) ==
      var next := Child(cur, bits[p]);
      if next.Leaf? then [next.sym] + Walk(root, root, bits[p + 1..], limit - 1)
      else Walk(root, next, bits[p + 1..], limit)
  {
    assert bits[p..][0] == bits[p] && bits[p..][1..] == bits[p + 1..];
  }

  /** `decode` of the packed variant, loop by loop. */
  method Decode(encoded: seq<byte>, root: Option<Tree<int>>, originalSize: nat) returns (decoded: seq<int>)
    ensures decoded == DecodedPacked(encoded, root, originalSize)
    ensures root.None? ==> decoded == []
    ensures root.Some? && root.value.Leaf? ==> decoded == Repeat(root.value.sym, originalSize)
    ensures |decoded| <= originalSize
  {
    if root.None? {
      return [];
    }
    var t := root.value;
    if t.Leaf? {
      return Repeat(t.sym, originalSize);
    }
    decoded := WalkPacked(encoded, t, originalSize);
  }

  /** The tree-walking branch of the packed `decode`: byte by byte, each bit 7 first. */
  method WalkPacked(encoded: seq<byte>, t: Tree<int>, originalSize: nat) returns (decoded: seq<int>)
    requires t.Node?
    ensures decoded == Walk(t, t, Unpack(encoded), originalSize)
  {
    ghost var want := Walk(t, t, Unpack(encoded), originalSize);
    decoded := [];
    var current := t;
    var k := 0;
    assert encoded[0..] == encoded;
    while k < |encoded|
      invariant 0 <= k <= |encoded| && current.Node? && |decoded| <= originalSize
      invariant decoded + Walk(t, current, Unpack(encoded[k..]), originalSize - |decoded|) == want
    {
      ghost var rest := Unpack(encoded[k + 1..]);
      UnpackFrom(encoded, k);
      var used;
      current, decoded, used := DecodeByte(t, current, decoded, encoded[k], originalSize, rest);
      if |decoded| >= originalSize {
        WalkDone(t, current, (ByteBits(encoded[k]) + rest)[used..], 0);
        return;
      }
      AfterByte(encoded[k], rest);
      k := k + 1;
    }
    WalkDone(t, current, Unpack(encoded[k..]), originalSize - |decoded|);
  }

  /** The stream from byte `k` on is that byte's bits followed by the rest. */
  lemma UnpackFrom(encoded: seq<byte>, k: nat)
    requires k < |encoded|
    ensures Unpack(encoded[k..]) == ByteBits(encoded[k]) + Unpack(encoded[k + 1..])
  {
    UnpackCons(encoded[k..]);
    assert encoded[k..][1..] == encoded[k + 1..];
  }

  /** Past a byte's eight bits the stream continues with the next byte. */
  lemma AfterByte(b: byte, rest: seq<bool>)
    ensures (ByteBits(b) + rest)[8..] == rest
  {
  }

  /** One turn of the decoding loop: take a child, and on a leaf emit its symbol and restart. */
  function Advance<S>(root: Tree<S>, cur: Tree<S>, decoded: seq<S>, bit: bool): (Tree<S>, seq<S>)
    requires cur.Node?
  {
    var next := Child(cur, bit);
    if next.Leaf? then (root, decoded + [next.sym]) else (next, decoded)
  }

  /** A turn of the loop continues the walk the loop stands for. */
  lemma DecodeStep<S>(root: Tree<S>, cur: Tree<S>, decoded: seq<S>, bits: seq<bool>, p: nat, n: nat, bit: bool)
    requires root.Node? && cur.Node? && p < |bits| && |decoded| < n && bits[p] == bit
    ensures var st := Advance(root, cur, decoded, bit);
      st.0.Node? && |st.1| <= n &&
      st.1 + Walk(root, st.0, bits[p + 1..], n - |st.1|) == decoded + Walk(root, cur, bits[p..], n - |decoded|)
  {
    WalkStep(root, cur, bits, p, n - |decoded|);
    var next := Child(cur, bits[p]);
    if next.Leaf? {
      var tail := Walk(root, root, bits[p + 1..], n - |decoded| - 1);
      assert (decoded + [next.sym]) + tail == decoded + ([next.sym] + tail);
    }
  }

  lemma StreamBit(b: byte, rest: seq<bool>, i: nat)
    requires i < 8
    ensures (ByteBits(b) + rest)[7 - i] == BitAt(b, i)
  {
  }

  /**
   * The inner loop of `decode`: the bits of one byte, bit 7 first, for as long
   * as fewer than `originalSize` symbols have been decoded. `used` counts the
   * bits taken; fewer than eight only when the quota is met.
   */
  method DecodeByte(root: Tree<int>, current: Tree<int>, decoded: seq<int>, b: byte, originalSize: nat, ghost rest: seq<bool>)
    returns (current': Tree<int>, decoded': seq<int>, used: nat)
    requires root.Node? && current.Node? && |decoded| <= originalSize
    ensures current'.Node? && |decoded'| <= originalSize && used <= 8
    ensures used < 8 ==> |decoded'| == originalSize
    ensures decoded' + Walk(root, current', (ByteBits(b) + rest)[used..], originalSize - |decoded'|)
         == decoded + Walk(root, current, ByteBits(b) + rest, originalSize - |decoded|)
  {
    ghost var bits := ByteBits(b) + rest;
    ghost var want := decoded + Walk(root, current, bits, originalSize - |decoded|);
    current', decoded' := current, decoded;
    var i := 7;
    assert bits[0..] == bits;
    while i >= 0 && |decoded'| < originalSize
      invariant -1 <= i <= 7 && current'.Node? && |decoded'| <= originalSize
      invariant decoded' + Walk(root, current', bits[7 - i..], originalSize - |decoded'|) == want
    {
      var bit := BitAt(b, i);
      StreamBit(b, rest, i);
      DecodeStep(root, current', decoded', bits, 7 - i, originalSize, bit);
      var st := Advance(root, current', decoded', bit);
      current', decoded' := st.0, st.1;
      i := i - 1;
    }
    used := 7 - i;
  }

  // ---------------------------------------------------------------------------
  // Text variant (question-7.cpp)
  // ---------------------------------------------------------------------------

  /** The steps `decode` takes for a string: '0' goes left, any other character goes right. */
  function TextBits(encoded: string): (bits: seq<bool>)
    ensures |bits| == |encoded|
  {
    if encoded == [] then [] else TextBits(encoded[..|encoded| - 1]) + [encoded[|encoded| - 1] != '0']
  }

  /**
   * What the text `decode(encoded, root)` returns: nothing for a null root, one
   * copy of a lone leaf's symbol per character, and otherwise the walk over the
   * whole string. A string of n characters holds at most n codes, so the
   * bound n never stops the walk early (`WalkBoundUnused`).
   */
  function DecodedText<S>(encoded: string, root: Option<Tree<S>>): (out: seq<S>)
    ensures |out| <= |encoded|
  {
    if root.None? then []
    else if root.value.Leaf? then Repeat(root.value.sym, |encoded|)
    else Walk(root.value, root.value, TextBits(encoded), |encoded|)
  }

  /** Any bound no smaller than the number of bits leaves the walk unchanged. */
  lemma {:induction false} WalkBoundUnused<S>(root: Tree<S>, cur: Tree<S>, bits: seq<bool>, limit: nat)
    requires root.Node? && cur.Node? && limit >= |bits|
    ensures Walk(root, cur, bits, limit) == Walk(root, cur, bits, |bits|)
    decreases |bits|
  {
    if bits != [] {
      var next := Child(cur, bits[0]);
      var rest := bits[1..];
      if next.Leaf? {
        WalkBoundUnused(root, root, rest, limit - 1);
        WalkBoundUnused(root, root, rest, |bits| - 1);
      } else {
        WalkBoundUnused(root, next, rest, limit);
        WalkBoundUnused(root, next, rest, |bits|);
      }
    }
  }

  /** `decode` of the text variant, character by character. */
  method DecodeText(encoded: string, root: Option<Tree<uchar>>) returns (decoded: seq<uchar>)
    ensures decoded == DecodedText(encoded, root)
    ensures root.None? ==> decoded == []
    ensures root.Some? && root.value.Leaf? ==> decoded == Repeat(root.value.sym, |encoded|)
    ensures |decoded| <= |encoded|
  {
    if root.None? {
      return [];
    }
    var t := root.value;
    if t.Leaf? {
      decoded := RepeatPerChar(encoded, t.sym);
    } else {
      decoded := WalkText(encoded, t);
    }
  }

  /** The lone-leaf branch of the text `decode`: the leaf's symbol once per character. */
  method RepeatPerChar(encoded: string, sym: uchar) returns (decoded: seq<uchar>)
    ensures decoded == Repeat(sym, |encoded|)
  {
    decoded := [];
    for i := 0 to |encoded|
      invariant decoded == Repeat(sym, i)
    {
      decoded := decoded + [sym];
    }
  }

  /** The tree-walking branch of the text `decode`: '0' steps left, anything else right. */
  method WalkText(encoded: string, t: Tree<uchar>) returns (decoded: seq<uchar>)
    requires t.Node?
    ensures decoded == Walk(t, t, TextBits(encoded), |encoded|)
  {
    decoded := [];
    ghost var bits := TextBits(encoded);
    ghost var want := Walk(t, t, bits, |encoded|);
    var current := t;
    assert bits[0..] == bits;
    for i := 0 to |encoded|
      invariant current.Node? && |decoded| <= i
      invariant decoded + Walk(t, current, bits[i..], |encoded| - |decoded|) == want
    {
      var bit := encoded[i] != '0';
      TextStep(t, current, decoded, encoded, bits, i, want);
      var st := Advance(t, current, decoded, bit);
      current, decoded := st.0, st.1;
    }
    WalkDone(t, current, bits[|encoded|..], |encoded| - |decoded|);
  }

  /** A turn of the text loop keeps the decoded prefix plus the remaining walk equal to the whole walk. */
  lemma TextStep(t: Tree<uchar>, current: Tree<uchar>, decoded: seq<uchar>, encoded: string, bits: seq<bool>, i: nat, want: seq<uchar>)
    requires t.Node? && current.Node? && |decoded| <= i < |encoded| && bits == TextBits(encoded)
    requires decoded + Walk(t, current, bits[i..], |encoded| - |decoded|) == want
    ensures var st := Advance(t, current, decoded, encoded[i] != '0');
      st.0.Node? && |st.1| <= i + 1 && st.1 + Walk(t, st.0, bits[i + 1..], |encoded| - |st.1|) == want
  {
    TextBitAt(encoded, i);
    DecodeStep(t, current, decoded, bits, i, |encoded|, encoded[i] != '0');
  }

  lemma {:induction false} TextBitAt(encoded: string, i: nat)
    requires i < |encoded|
    ensures TextBits(encoded)[i] == (encoded[i] != '0')
  {
    var n := |encoded| - 1;
    if i < n {
      TextBitAt(encoded[..n], i);
    }
  }
}
