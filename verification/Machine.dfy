/** Machine integers and the few shared sequence helpers of the model. */
module Machine {

  type uint8 = x: int | 0 <= x < 0x100
  type uint16 = x: int | 0 <= x < 0x1_0000
  type uint32 = x: int | 0 <= x < 0x1_0000_0000

  datatype Option<+T> = None | Some(value: T)

  /** `s` with the elements from `off` on overwritten by `t`: what a memcpy leaves behind. */
  function Splice<T>(s: seq<T>, off: nat, t: seq<T>): (r: seq<T>)
    requires off + |t| <= |s|
    ensures |r| == |s|
    ensures forall i :: 0 <= i < |s| ==> r[i] == if off <= i < off + |t| then t[i - off] else s[i]
  {
    s[..off] + t + s[off + |t|..]
  }

  /** Two adjacent copies are one. */
  lemma SpliceAdjacent<T>(s: seq<T>, off: nat, a: seq<T>, b: seq<T>)
    requires off + |a| + |b| <= |s|
    ensures Splice(Splice(s, off, a), off + |a|, b) == Splice(s, off, a + b)
  {
    hide Splice;
    var l, r := Splice(Splice(s, off, a), off + |a|, b), Splice(s, off, a + b);
    assert forall i :: 0 <= i < |s| ==> l[i] == r[i];
  }

  /** A copy onto part of an earlier one. */
  lemma SpliceInside<T>(s: seq<T>, off: nat, a: seq<T>, i: nat, b: seq<T>)
    requires off + |a| <= |s| && i + |b| <= |a|
    ensures Splice(Splice(s, off, a), off + i, b) == Splice(s, off, Splice(a, i, b))
  {
    hide Splice;
    var l, r := Splice(Splice(s, off, a), off + i, b), Splice(s, off, Splice(a, i, b));
    assert forall k :: 0 <= k < |s| ==> l[k] == r[k];
  }

  /** A slice around a copy. */
  lemma SpliceSlice<T>(s: seq<T>, off: nat, t: seq<T>, lo: nat, hi: nat)
    requires lo <= off && off + |t| <= hi <= |s|
    ensures Splice(s, off, t)[lo..hi] == Splice(s[lo..hi], off - lo, t)
  {
    hide Splice;
    var l, r := Splice(s, off, t)[lo..hi], Splice(s[lo..hi], off - lo, t);
    assert forall k :: 0 <= k < |l| ==> l[k] == r[k];
  }

  /** A byte store inside a copy. */
  lemma SpliceUpdate<T>(s: seq<T>, off: nat, a: seq<T>, i: nat, b: T)
    requires off + |a| <= |s| && i < |a|
    ensures Splice(s, off, a)[off + i := b] == Splice(s, off, a[i := b])
  {
    hide Splice;
    var l, r := Splice(s, off, a)[off + i := b], Splice(s, off, a[i := b]);
    assert forall k :: 0 <= k < |s| ==> l[k] == r[k];
  }

  /** A sequence that differs from another only in a window is that window spliced in. */
  lemma SpliceWindow<T>(s: seq<T>, t: seq<T>, off: nat, n: nat)
    requires |s| == |t| && off + n <= |s|
    requires forall k :: 0 <= k < |s| && !(off <= k < off + n) ==> t[k] == s[k]
    ensures t == Splice(s, off, t[off..off + n])
  {
    hide Splice;
    var r := Splice(s, off, t[off..off + n]);
    assert forall k :: 0 <= k < |s| ==> t[k] == r[k];
  }

  lemma Assoc<T>(x: seq<T>, y: seq<T>, z: seq<T>)
    ensures x + (y + z) == x + y + z
  {}

  function Zeros(n: nat): (r: seq<uint8>)
    ensures |r| == n && forall i :: 0 <= i < n ==> r[i] == 0
  {
    seq(n, _ => 0)
  }

  /** The 16-bit value of two bytes, most significant first. */
  function Word(hi: uint8, lo: uint8): uint16 {
    var h: int := hi;
    h * 256 + lo
  }

  /** The two bytes of a 16-bit value, most significant first. */
  function Be16(x: uint16): (r: seq<uint8>)
    ensures |r| == 2 && Word(r[0], r[1]) == x
  {
    [x / 256, x % 256]
  }

  /** A single byte store. */
  method Poke(dst: array<uint8>, i: nat, b: uint8)
    requires i < dst.Length
    modifies dst
    ensures dst[..] == old(dst[..])[i := b]
  {
    dst[i] := b;
  }

  /** Overwrites `dst` from `off` on by `src`, byte after byte. */
  method MemCpy(dst: array<uint8>, off: nat, src: seq<uint8>)
    requires off + |src| <= dst.Length
    modifies dst
    ensures dst[..] == Splice(old(dst[..]), off, src)
  {
    var i := 0;
    while i < |src|
      invariant 0 <= i <= |src|
      invariant forall j :: 0 <= j < dst.Length ==>
        dst[j] == if off <= j < off + i then src[j - off] else old(dst[j])
    {
      dst[off + i] := src[i];
      i := i + 1;
    }
  }
}
