/** Binary code trees: the walk along one code, the decoder that takes one bit at a time, and their theory. */
module PrefixCodes {
  import opened Words

  datatype Tree = Leaf(symbol: byte) | Branch(zero: Tree, one: Tree) {
    function Child(bit: bool): Tree
      requires Branch?
    {
      if bit then one else zero
    }

    /** The length of the longest code. */
    function Height(): nat {
      match this
      case Leaf(_) => 0
      case Branch(z, o) => 1 + if z.Height() > o.Height() then z.Height() else o.Height()
    }
  }

  /** Where a walk from some node ends: at a leaf after `used` bits, or inside the tree when the bits run out. */
  datatype Walk = Found(symbol: byte, used: nat) | Unfinished {
    function Later(n: nat): Walk {
      match this
      case Found(s, u) => Found(s, u + n)
      case Unfinished => Unfinished
    }
  }

  function WalkTree(t: Tree, bits: seq<bool>): (w: Walk)
    ensures w.Found? ==> w.used <= |bits| && (w.used == 0 <==> t.Leaf?)
  {
    if t.Leaf? then Found(t.symbol, 0)
    else if bits == [] then Unfinished
    else WalkTree(t.Child(bits[0]), bits[1..]).Later(1)
  }

  /** The decoder that takes one tree step per input bit. */
  function BitDecode(root: Tree, node: Tree, bits: seq<bool>): seq<byte>
    requires root.Branch? && node.Branch?
    decreases |bits|
  {
    if bits == [] then []
    else
      var next := node.Child(bits[0]);
      if next.Leaf? then [next.symbol] + BitDecode(root, root, bits[1..])
      else BitDecode(root, next, bits[1..])
  }

  function Decode(root: Tree, bits: seq<bool>): seq<byte>
    requires root.Branch?
  {
    BitDecode(root, root, bits)
  }

  /** Where the last complete code ends: short of |bits| exactly when a code is cut off. */
  function CodeEnd(root: Tree, bits: seq<bool>): (n: nat)
    requires root.Branch?
    ensures n <= |bits|
    decreases |bits|
  {
    var w := WalkTree(root, bits);
    if w.Unfinished? then 0 else w.used + CodeEnd(root, bits[w.used..])
  }

  /** No code is longer than the height, and some code is that long. */
  lemma {:induction false} WalkWithinHeight(t: Tree, bits: seq<bool>)
    ensures WalkTree(t, bits).Found? ==> WalkTree(t, bits).used <= t.Height()
  {
    if t.Branch? && bits != [] {
      WalkWithinHeight(t.Child(bits[0]), bits[1..]);
    }
  }

  lemma {:induction false} LongestCode(t: Tree) returns (code: seq<bool>)
    ensures |code| == t.Height() && WalkTree(t, code).Found? && WalkTree(t, code).used == |code|
  {
    if t.Leaf? {
      code := [];
    } else {
      var bit := t.one.Height() >= t.zero.Height();
      var rest := LongestCode(t.Child(bit));
      code := [bit] + rest;
      assert code[1..] == rest;
    }
  }

  /** A walk depends on the bits it uses only. */
  lemma {:induction false} WalkPrefix(t: Tree, a: seq<bool>, b: seq<bool>)
    requires WalkTree(t, a).Found? && WalkTree(t, a).used <= |b|
    requires a[..WalkTree(t, a).used] == b[..WalkTree(t, a).used]
    ensures WalkTree(t, b) == WalkTree(t, a)
  {
    if t.Branch? {
      var u := WalkTree(t, a).used;
      assert a[0] == a[..u][0] == b[..u][0] == b[0];
      assert a[1..][..u - 1] == a[..u][1..] == b[..u][1..] == b[1..][..u - 1];
      WalkPrefix(t.Child(a[0]), a[1..], b[1..]);
    }
  }

  /** A proper prefix of a code does not reach a leaf. */
  lemma {:induction false} WalkCutShort(t: Tree, a: seq<bool>, b: seq<bool>)
    requires WalkTree(t, a).Found? && |b| < WalkTree(t, a).used && b <= a
    ensures WalkTree(t, b).Unfinished?
  {
    if WalkTree(t, b).Found? {
      WalkPrefix(t, b, a);
      assert false;
    }
  }

  /** One bit of a walk. */
  lemma {:induction false} WalkStep(t: Tree, bits: seq<bool>, n: nat)
    requires t.Branch? && n < |bits|
    ensures WalkTree(t, bits[n..]) == WalkTree(t.Child(bits[n]), bits[n + 1..]).Later(1)
  {
    assert bits[n..][1..] == bits[n + 1..];
  }

  /** The bit decoder from inside a code: the rest of the code, then a fresh start. */
  lemma {:induction false} BitDecodeCode(root: Tree, node: Tree, bits: seq<bool>)
    requires root.Branch? && node.Branch?
    ensures var w := WalkTree(node, bits);
            BitDecode(root, node, bits) ==
            if w.Found? then [w.symbol] + BitDecode(root, root, bits[w.used..]) else []
  {
    if bits != [] {
      var next := node.Child(bits[0]);
      var w := WalkTree(node, bits);
      if next.Branch? {
        BitDecodeCode(root, next, bits[1..]);
        if w.Found? {
          assert bits[1..][w.used - 1..] == bits[w.used..];
        }
      }
    }
  }

  lemma DecodeNothing(root: Tree)
    requires root.Branch?
    ensures Decode(root, []) == [] && CodeEnd(root, []) == 0
  {
  }

  /** A whole number of codes decodes independently of what follows it. */
  lemma {:induction false} DecodeAppend(root: Tree, a: seq<bool>, b: seq<bool>)
    requires root.Branch? && CodeEnd(root, a) == |a|
    ensures Decode(root, a + b) == Decode(root, a) + Decode(root, b)
    ensures CodeEnd(root, a + b) == |a| + CodeEnd(root, b)
    decreases |a|
  {
    hide WalkTree, BitDecode;
    if a == [] {
      DecodeNothing(root);
      assert a + b == b;
    } else {
      var used := WalkTree(root, a).used;
      assert (a + b)[..used] == a[..used];
      WalkPrefix(root, a, a + b);
      assert (a + b)[used..] == a[used..] + b;
      DecodeAppend(root, a[used..], b);
      BitDecodeCode(root, root, a);
      BitDecodeCode(root, root, a + b);
    }
  }

  lemma {:induction false} DecodeOneCode(root: Tree, code: seq<bool>, symbol: byte)
    requires root.Branch? && WalkTree(root, code) == Found(symbol, |code|)
    ensures Decode(root, code) == [symbol] && CodeEnd(root, code) == |code|
  {
    BitDecodeCode(root, root, code);
    assert code[|code|..] == [];
  }
}
