/** The Internet checksum of firmware/net/net.c, one-shot and streaming. */
module Checksum {
  import opened Machine

  const MODULUS := 0x1_0000_0000

  /** Addition into a uint32_t, which wraps around. */
  function AddMod(a: nat, b: nat): uint32 {
    (a + b) % MODULUS
  }

  lemma AddModZero(a: uint32)
    ensures AddMod(a, 0) == a
  {}

  lemma AddModTwice(a: nat, b: nat, c: nat)
    ensures AddMod(AddMod(a, b), c) == AddMod(a, b + c)
  {}

  // ----- Section 1 of RFC 1071 -----

  /** Addition of 16-bit words with end-around carry. */
  function OnesAdd(a: uint16, b: uint16): uint16 {
    if a + b < 0x1_0000 then a + b else a + b - 0xFFFF
  }

  /** The one's-complement sum of the bytes of `s`, paired into words and padded with zero. */
  function OnesSum(s: seq<uint8>): uint16 {
    if |s| == 0 then 0
    else if |s| == 1 then Word(s[0], 0)
    else OnesAdd(Word(s[0], s[1]), OnesSum(s[2..]))
  }

  /** A receiver's test: the sum over the data, checksum included, is all ones. */
  predicate Verifies(s: seq<uint8>) {
    OnesSum(s) == 0xFFFF
  }

  // ----- The same sum without carries -----

  function WordSum(s: seq<uint8>): nat {
    if |s| == 0 then 0
    else if |s| == 1 then Word(s[0], 0)
    else Word(s[0], s[1]) + WordSum(s[2..])
  }

  /** The residue the folding of carries ends with: 0 for 0 only, else 1 to 65535 modulo 65535. */
  function Fold(n: nat): (r: uint16)
    ensures r == 0 <==> n == 0
    ensures (n - r) % 0xFFFF == 0
  {
    if n == 0 then 0 else (n - 1) % 0xFFFF + 1
  }

  lemma FoldUnique(n: nat, r: uint16)
    requires (n - r) % 0xFFFF == 0 && (r == 0 <==> n == 0)
    ensures Fold(n) == r
  {
    if n > 0 {
      assert ((n - 1) - (r - 1)) % 0xFFFF == 0;
    }
  }

  lemma FoldAdd(m: nat, n: nat)
    ensures Fold(m + Fold(n)) == Fold(m + n)
  {
    hide Fold;
    var r := Fold(m + n);
    assert m + Fold(n) - r == (m + n - r) - (n - Fold(n));
    FoldUnique(m + Fold(n), r);
  }

  lemma OnesAddIsFold(a: uint16, b: uint16)
    ensures OnesAdd(a, b) == Fold(a + b)
  {}

  /** The end-around carry sum is the folded plain sum. */
  lemma {:induction false} OnesSumIsFold(s: seq<uint8>)
    ensures OnesSum(s) == Fold(WordSum(s))
  {
    hide Fold, OnesAdd, Word;
    if |s| <= 1 {
      FoldSmall(WordSum(s));
    } else {
      OnesSumIsFold(s[2..]);
      FoldAdd(Word(s[0], s[1]), WordSum(s[2..]));
      OnesAddIsFold(Word(s[0], s[1]), Fold(WordSum(s[2..])));
    }
  }

  lemma FoldSmall(n: uint16)
    ensures Fold(n) == n
  {}

  /** A multiple of 0xFFFF is exactly what verifies. */
  lemma FoldAllOnes(n: nat)
    ensures Fold(n) == 0xFFFF <==> n > 0 && n % 0xFFFF == 0
  {}

  /** Adding a term changes the residue unless the term is a multiple of 0xFFFF. */
  lemma FoldDiffers(m: nat, n: nat)
    requires m > 0 && n > 0
    ensures Fold(m) == Fold(n) <==> (m - n) % 0xFFFF == 0
  {}

  // ----- Sums of parts -----

  lemma {:induction false} WordSumConcat(a: seq<uint8>, b: seq<uint8>)
    requires |a| % 2 == 0
    ensures WordSum(a + b) == WordSum(a) + WordSum(b)
  {
    if a == [] {
      assert a + b == b;
    } else {
      assert (a + b)[2..] == a[2..] + b;
      WordSumConcat(a[2..], b);
    }
  }

  lemma {:induction false} WordSumBound(s: seq<uint8>)
    ensures WordSum(s) <= 0xFFFF * ((|s| + 1) / 2)
  {
    if |s| <= 1 {
    } else {
      WordSumBound(s[2..]);
    }
  }

  /** The whole words of `s`: all of it, or all but the last byte. */
  function Even(s: seq<uint8>): (r: seq<uint8>)
    ensures |r| % 2 == 0 && |r| <= |s|
  {
    s[..|s| - |s| % 2]
  }

  lemma WordSumLast(s: seq<uint8>)
    requires |s| % 2 == 1
    ensures WordSum(s) == WordSum(Even(s)) + Word(s[|s| - 1], 0)
  {
    assert s == Even(s) + [s[|s| - 1]];
    WordSumConcat(Even(s), [s[|s| - 1]]);
  }

  lemma WordSumEmpty()
    ensures WordSum([]) == 0
  {}

  lemma WordSumSnoc(s: seq<uint8>, i: nat)
    requires i % 2 == 0 && i + 1 < |s|
    ensures WordSum(s[..i + 2]) == WordSum(s[..i]) + Word(s[i], s[i + 1])
  {
    assert s[..i + 2] == s[..i] + [s[i], s[i + 1]];
    WordSumConcat(s[..i], [s[i], s[i + 1]]);
  }

  // ----- The routines -----

  /** The width of C's `int`, to which a byte is promoted before it is shifted: 16 bits on the AVR. */
  datatype IntWidth = Int16 | Int32

  /** `(0xFF & *buf) << 8` converted to uint32_t: where int has 16 bits the shift reaches the sign bit. */
  function OddByteTerm(b: uint8, width: IntWidth): uint32 {
    if width.Int16? && b >= 0x80 then Word(b, 0) + 0xFFFF_0000 else Word(b, 0)
  }

  /** The 32-bit sum the code has reached before the carries are folded. */
  function CodeSum(s: seq<uint8>, kind: uint8, width: IntWidth): nat {
    if |s| % 2 == 0 then kind + WordSum(s)
    else AddMod(kind + WordSum(Even(s)), OddByteTerm(s[|s| - 1], width))
  }

  function CodeChecksum(s: seq<uint8>, kind: uint8, width: IntWidth): uint16 {
    0xFFFF - Fold(CodeSum(s, kind, width))
  }

  /** One round of the folding loop. */
  function Round(sum: uint32): uint32 {
    sum % 0x1_0000 + sum / 0x1_0000
  }

  lemma RoundKeepsFold(sum: uint32)
    ensures Fold(Round(sum)) == Fold(sum)
  {
    assert sum == sum / 0x1_0000 * 0x1_0000 + sum % 0x1_0000;
    assert sum - Round(sum) == sum / 0x1_0000 * 0xFFFF;
    assert (sum - Round(sum)) % 0xFFFF == 0;
    if sum > 0 {
      FoldDiffers(sum, Round(sum));
    }
  }

  /** The loop that folds the carries runs at most twice on any 32-bit sum. */
  lemma TwoRounds(sum: uint32)
    ensures Round(Round(sum)) < 0x1_0000
  {}

  method FoldCarries(partial: uint32) returns (r: uint16)
    ensures r == 0xFFFF - Fold(partial)
  {
    var sum := partial;
    while sum / 0x1_0000 != 0
      invariant Fold(sum) == Fold(partial)
      decreases sum
    {
      RoundKeepsFold(sum);
      sum := sum % 0x1_0000 + sum / 0x1_0000;
    }
    FoldSmall(sum);
    r := 0xFFFF - sum;
  }

  /** `checksum` over `len` bytes from `off` on. The sum of the words never leaves 32 bits. */
  method Checksum(buf: array<uint8>, off: nat, len: uint16, kind: uint8, width: IntWidth) returns (r: uint16)
    requires off + len <= buf.Length
    ensures r == CodeChecksum(buf[off..off + len], kind, width)
  {
    hide WordSum, Word, AddMod, OddByteTerm;
    ghost var s := buf[off..off + len];
    WordSumEmpty();
    var sum: uint32 := kind;
    assert s[..0] == [];
    var p, left := off, len;
    while left > 1
      invariant p + left == off + len && (p - off) % 2 == 0
      invariant off <= p && 0 <= left
      invariant sum == kind + WordSum(s[..p - off])
    {
      WordSumSnoc(s, p - off);
      WordSumBound(s[..p - off + 2]);
      sum := sum + Word(buf[p], buf[p + 1]);
      p, left := p + 2, left - 2;
    }
    assert s[..p - off] == Even(s);
    if left != 0 {
      sum := AddMod(sum, OddByteTerm(buf[p], width));
    } else {
      assert Even(s) == s;
    }
    r := FoldCarries(sum);
  }

  // ----- When the routine is the RFC's checksum -----

  lemma CodeSumResidue(s: seq<uint8>, kind: uint8, width: IntWidth)
    requires |s| < 0x1_0000
    ensures var sum := kind + WordSum(s);
            if width.Int16? && |s| % 2 == 1 && s[|s| - 1] >= 0x80 then
              CodeSum(s, kind, width) == if sum >= 0x1_0000 then sum - 0x1_0000 else sum + 0xFFFF_0000
            else
              CodeSum(s, kind, width) == sum
  {
    hide WordSum;
    WordSumBound(s);
    if |s| % 2 == 1 {
      WordSumLast(s);
    } else {
      assert Even(s) == s;
    }
  }

  /** The sum in which the code goes wrong: an odd length, a last byte whose shift is negative, and
      enough in the other words for the 32-bit sum to wrap. */
  predicate SignReachesSum(s: seq<uint8>, kind: uint8, width: IntWidth) {
    width.Int16? && |s| % 2 == 1 && s[|s| - 1] >= 0x80 && kind + WordSum(s) >= 0x1_0000
  }

  /** The residue of the code's sum is that of the true sum exactly when the sign does not reach it. */
  lemma CodeSumCongruent(s: seq<uint8>, kind: uint8, width: IntWidth)
    requires |s| < 0x1_0000
    ensures Fold(CodeSum(s, kind, width)) == Fold(kind + WordSum(s)) <==> !SignReachesSum(s, kind, width)
    ensures (kind + WordSum(s) - CodeSum(s, kind, width)) % 0xFFFF == if SignReachesSum(s, kind, width) then 1 else 0
  {
    hide WordSum, CodeSum, Fold;
    CodeSumResidue(s, kind, width);
    var sum, code := kind + WordSum(s), CodeSum(s, kind, width);
    if code == sum + 0xFFFF_0000 {
      WordSumLast(s);
      FoldPlus(sum);
    } else if code != sum {
      FoldMinus(sum);
    }
  }

  /** The wrapped sign is a multiple of 0xFFFF. */
  lemma FoldPlus(sum: nat)
    requires sum > 0
    ensures Fold(sum + 0xFFFF_0000) == Fold(sum) && (sum - (sum + 0xFFFF_0000)) % 0xFFFF == 0
  {
    assert 0xFFFF_0000 == 0x1_0000 * 0xFFFF;
    FoldDiffers(sum + 0xFFFF_0000, sum);
  }

  lemma FoldMinus(sum: nat)
    requires sum >= 0x1_0000
    ensures Fold(sum - 0x1_0000) != Fold(sum) && (sum - (sum - 0x1_0000)) % 0xFFFF == 1
  {
    assert (sum - 0x1_0000 - sum) % 0xFFFF != 0;
    if sum > 0x1_0000 {
      FoldDiffers(sum - 0x1_0000, sum);
    }
  }

  /** `checksum` is the complement of the RFC's sum if and only if the sign does not reach the sum;
      with a 32-bit int it always is. */
  lemma ChecksumMeetsRfc1071(s: seq<uint8>, kind: uint8, width: IntWidth)
    requires |s| < 0x1_0000
    ensures CodeChecksum(s, kind, width) == 0xFFFF - OnesAdd(kind, OnesSum(s)) <==> !SignReachesSum(s, kind, width)
  {
    hide WordSum, OnesSum, CodeSum, Fold, SignReachesSum, OnesAdd;
    CodeSumCongruent(s, kind, width);
    OnesSumIsFold(s);
    OnesAddIsFold(kind, OnesSum(s));
    FoldAdd(kind, WordSum(s));
  }

  /** A message of three bytes on which the 16-bit routine is off by one. */
  lemma OddMessageCounterexample()
    ensures var s: seq<uint8> := [0x80, 0x00, 0x80];
            CodeChecksum(s, 0, Int16) == 0xFFFF && 0xFFFF - OnesSum(s) == 0xFFFE
  {
    var s: seq<uint8> := [0x80, 0x00, 0x80];
    assert s[2..] == [0x80] && Even(s) == [0x80, 0x00];
    assert Even(s)[2..] == [];
    assert WordSum(Even(s)) == 0x8000;
  }

  // ----- Storing and verifying -----

  lemma WordSumAt(s: seq<uint8>, i: nat)
    requires i % 2 == 0 && i + 2 <= |s|
    ensures WordSum(s) == WordSum(s[..i]) + Word(s[i], s[i + 1]) + WordSum(s[i + 2..])
  {
    hide WordSum, Word;
    assert s == s[..i + 2] + s[i + 2..];
    WordSumConcat(s[..i + 2], s[i + 2..]);
    WordSumSnoc(s, i);
  }

  lemma WordSumStore(s: seq<uint8>, i: nat, w: uint16)
    requires i % 2 == 0 && i + 2 <= |s|
    ensures WordSum(Splice(s, i, Be16(w))) == WordSum(s) - Word(s[i], s[i + 1]) + w
  {
    hide WordSum, Word;
    var t := Splice(s, i, Be16(w));
    WordSumAt(s, i);
    WordSumAt(t, i);
    assert t[..i] == s[..i] && t[i + 2..] == s[i + 2..];
    assert t[i] == Be16(w)[0] && t[i + 1] == Be16(w)[1];
  }

  /** A checksum made from a sum `x` and stored in a zeroed field verifies exactly when `x` is
      congruent to the sum of the message. */
  lemma StoredVerifies(s: seq<uint8>, i: nat, x: nat)
    requires i % 2 == 0 && i + 2 <= |s| && s[i] == s[i + 1] == 0
    requires WordSum(s) == 0 ==> x == 0
    ensures Verifies(Splice(s, i, Be16(0xFFFF - Fold(x)))) <==> (WordSum(s) - x) % 0xFFFF == 0
  {
    hide WordSum, Fold, OnesSum;
    var c := 0xFFFF - Fold(x);
    var t := Splice(s, i, Be16(c));
    WordSumStore(s, i, c);
    OnesSumIsFold(t);
    Complement(WordSum(s), x, WordSum(t));
  }

  lemma Complement(m: nat, x: nat, n: nat)
    requires (m == 0 ==> x == 0) && n == m + 0xFFFF - Fold(x)
    ensures Fold(n) == 0xFFFF <==> (m - x) % 0xFFFF == 0
  {
    FoldAllOnes(n);
    hide Fold;
    assert n == (m - x) + (x - Fold(x)) + 0xFFFF;
  }

  lemma {:induction false} WordSumUpdate(s: seq<uint8>, k: nat, b: uint8)
    requires k < |s|
    ensures WordSum(s[k := b]) - WordSum(s) == if k % 2 == 0 then 256 * (b - s[k]) else b - s[k]
  {
    var t := s[k := b];
    if k < 2 {
      assert |s| > 2 ==> t[2..] == s[2..];
    } else {
      assert t[2..] == s[2..][k - 2 := b];
      WordSumUpdate(s[2..], k - 2, b);
    }
  }

  /** No change of a single byte goes undetected. */
  lemma OneByteIsDetected(s: seq<uint8>, k: nat, b: uint8)
    requires k < |s| && b != s[k] && Verifies(s)
    ensures !Verifies(s[k := b])
  {
    hide WordSum, Fold, OnesSum;
    var t := s[k := b];
    WordSumUpdate(s, k, b);
    OnesSumIsFold(s);
    OnesSumIsFold(t);
    FoldAllOnes(WordSum(s));
    FoldAllOnes(WordSum(t));
    var d: int := WordSum(t) - WordSum(s);
    assert -0xFFFF < d < 0xFFFF && d != 0;
    assert d % 0xFFFF != 0;
  }

  // ----- The streaming form -----

  /** `partial_sum` and the functions that update it. */
  class Streaming {
    var partialSum: uint32

    constructor (kind: uint8)
      ensures partialSum == kind
    {
      partialSum := kind;
    }

    /** `checksum_step` ignores the last byte of a chunk of odd length. */
    method Step(buf: array<uint8>, off: nat, len: uint16)
      requires off + len <= buf.Length
      modifies this
      ensures partialSum == StepSum(old(partialSum), buf[off..off + len])
    {
      hide WordSum, Word, AddMod;
      AddModZero(partialSum);
      ghost var s := buf[off..off + len];
      WordSumEmpty();
      assert s[..0] == [];
      var p, left := off, len;
      while left > 1
        invariant p + left == off + len && (p - off) % 2 == 0
        invariant off <= p && 0 <= left
        invariant partialSum == AddMod(old(partialSum), WordSum(s[..p - off]))
      {
        WordSumSnoc(s, p - off);
        AddModTwice(old(partialSum), WordSum(s[..p - off]), Word(buf[p], buf[p + 1]));
        partialSum := AddMod(partialSum, Word(buf[p], buf[p + 1]));
        p, left := p + 2, left - 2;
      }
      assert s[..p - off] == Even(s);
    }

    /** `checksum_end`: the loop runs on the variable itself. */
    method End() returns (r: uint16)
      modifies this
      ensures r == 0xFFFF - Fold(old(partialSum))
      ensures partialSum == Fold(old(partialSum))
    {
      while partialSum / 0x1_0000 != 0
        invariant Fold(partialSum) == Fold(old(partialSum))
        decreases partialSum
      {
        RoundKeepsFold(partialSum);
        partialSum := partialSum % 0x1_0000 + partialSum / 0x1_0000;
      }
      FoldSmall(partialSum);
      r := 0xFFFF - partialSum;
    }
  }

  function StepSum(partial: uint32, chunk: seq<uint8>): uint32 {
    AddMod(partial, WordSum(Even(chunk)))
  }

  /** The sum after all chunks. */
  function StreamSum(partial: uint32, chunks: seq<seq<uint8>>): uint32
    decreases |chunks|
  {
    if chunks == [] then partial else StreamSum(StepSum(partial, chunks[0]), chunks[1..])
  }

  function Flatten<T>(chunks: seq<seq<T>>): seq<T> {
    if chunks == [] then [] else chunks[0] + Flatten(chunks[1..])
  }

  /** However a message is cut into chunks of even length, the streaming form reaches the sum of the
      whole message, and so the one-shot checksum, as long as the sum fits in 32 bits. */
  lemma {:induction false} StreamIsOneShot(partial: uint32, chunks: seq<seq<uint8>>)
    requires forall i :: 0 <= i < |chunks| ==> |chunks[i]| % 2 == 0
    requires partial + WordSum(Flatten(chunks)) < MODULUS
    ensures StreamSum(partial, chunks) == partial + WordSum(Flatten(chunks))
    decreases |chunks|
  {
    hide WordSum;
    if chunks == [] {
      WordSumEmpty();
    } else {
      assert Even(chunks[0]) == chunks[0];
      WordSumConcat(chunks[0], Flatten(chunks[1..]));
      StreamIsOneShot(StepSum(partial, chunks[0]), chunks[1..]);
    }
  }

  lemma StreamChecksumIsOneShot(kind: uint8, chunks: seq<seq<uint8>>, width: IntWidth)
    requires forall i :: 0 <= i < |chunks| ==> |chunks[i]| % 2 == 0
    requires |Flatten(chunks)| < 0x1_0000
    ensures 0xFFFF - Fold(StreamSum(kind, chunks)) == CodeChecksum(Flatten(chunks), kind, width)
  {
    WordSumBound(Flatten(chunks));
    StreamIsOneShot(kind, chunks);
    FlattenEven(chunks);
  }

  lemma {:induction false} FlattenEven(chunks: seq<seq<uint8>>)
    requires forall i :: 0 <= i < |chunks| ==> |chunks[i]| % 2 == 0
    ensures |Flatten(chunks)| % 2 == 0
  {
    if chunks == [] {
    } else {
      FlattenEven(chunks[1..]);
    }
  }
}
