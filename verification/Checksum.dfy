/** The Internet checksum: the program's 32-bit accumulate-and-fold loop against one's-complement
    addition as section 1 of RFC 1071 describes it. */
module Checksum {
  import opened Bytes

  /** What `htons` does on a little-endian host. */
  function Swap16(n: u16): (r: u16)
    ensures r == n % 0x100 * 0x100 + n / 0x100
  {
    n % 0x100 * 0x100 + n / 0x100
  }

  /** A swapped number, stored by a little-endian host, is the number in network order. */
  lemma SwapStores(n: u16)
    ensures [Swap16(n) % 0x100, Swap16(n) / 0x100] == Be16(n)
  {
  }

  lemma SwapTwice(n: u16)
    ensures Swap16(Swap16(n)) == n
    ensures Swap16(n) == 0 <==> n == 0
  {
  }

  lemma ZeroField()
    ensures Be16(0) == [0, 0]
  {
  }

  /** One's-complement addition of 16-bit numbers: the carry is added back at the low end. */
  function OnesAdd(a: u16, b: u16): u16 {
    if a + b > 0xFFFF then a + b - 0xFFFF else a + b
  }

  /** The first 16-bit word in network order; a single last byte is padded with zero. */
  function FirstWord(s: seq<byte>): u16
    requires s != []
  {
    s[0] as int * 0x100 + if |s| == 1 then 0 else s[1]
  }

  function OtherWords(s: seq<byte>): seq<byte>
    requires s != []
  {
    if |s| == 1 then [] else s[2..]
  }

  /** The one's-complement sum of the words. */
  function OnesSum(s: seq<byte>): u16
    decreases |s|
  {
    if s == [] then 0 else OnesAdd(FirstWord(s), OnesSum(OtherWords(s)))
  }

  /** The ordinary sum of the words. */
  function WordSum(s: seq<byte>): nat
    decreases |s|
  {
    if s == [] then 0 else FirstWord(s) + WordSum(OtherWords(s))
  }

  /** The 16-bit number that one's-complement arithmetic makes of a sum: zero only for zero. */
  function Folded(n: nat): u16 {
    if n == 0 then 0 else (n - 1) % 0xFFFF + 1
  }

  const WRAP := 0x1_0000_0000

  /** The program's checksum, as a number in network order: the accumulator wraps at 32 bits. */
  function CheckSum(s: seq<byte>): u16 {
    0xFFFF - Folded(WordSum(s) % WRAP)
  }

  /** Reading words and adding them up, folding the carries, complementing; the result is the value
      to store in a header field on a little-endian host. */
  method CalcCheckSum(data: seq<byte>) returns (r: u16)
    ensures r == Swap16(CheckSum(data))
  {
    hide Folded, WordSum;
    var sum: u32 := 0;
    var sz, p := |data|, 0;
    ghost var total := 0;
    assert data[p..] == data;
    while sz >= 2
      invariant 0 <= p && 0 <= sz && p + sz == |data|
      invariant total + WordSum(data[p..]) == WordSum(data) && total >= 0
      invariant sum == total % WRAP
    {
      var word := data[p] as int + 0x100 * data[p + 1] as int;
      WordAt(data, p);
      WrapAdds(total, Swap16(word));
      total := total + Swap16(word);
      sum := (sum + Swap16(word)) % WRAP;
      p, sz := p + 2, sz - 2;
    }
    if sz == 1 {
      WordAt(data, p);
      WrapAdds(total, Swap16(data[p]));
      total := total + Swap16(data[p]);
      sum := (sum + Swap16(data[p])) % WRAP;
      p := p + 1;
    }
    NoWords(data[p..]);
    while sum / 0x1_0000 > 0
      invariant Folded(sum) == Folded(total % WRAP)
      decreases sum
    {
      FoldStep(sum);
      sum := sum % 0x1_0000 + sum / 0x1_0000;
    }
    Unfolded(sum);
    r := Swap16((WRAP - 1 - sum) % 0x1_0000);
  }

  lemma NoWords(s: seq<byte>)
    requires s == []
    ensures WordSum(s) == 0
  {
  }

  lemma Unfolded(n: u16)
    ensures Folded(n) == n
    ensures (WRAP - 1 - n) % 0x1_0000 == 0xFFFF - n
  {
  }

  lemma WrapAdds(total: nat, word: u16)
    ensures (total % WRAP + word) % WRAP == (total + word) % WRAP
  {
    assert total == total / WRAP * WRAP + total % WRAP;
  }

  /** The word read at `p` in host order, swapped, is the word in network order. */
  lemma WordAt(data: seq<byte>, p: nat)
    requires p < |data|
    ensures p + 1 < |data| ==>
              var word: u16 := data[p] as int + 0x100 * data[p + 1] as int;
              WordSum(data[p..]) == Swap16(word) + WordSum(data[p + 2..])
    ensures p + 1 == |data| ==> WordSum(data[p..]) == Swap16(data[p]) + WordSum(data[p + 1..])
  {
    if p + 1 < |data| {
      assert data[p..][2..] == data[p + 2..];
    } else {
      assert WordSum(OtherWords(data[p..])) == 0 == WordSum(data[p + 1..]);
    }
  }

  lemma FoldStep(n: nat)
    requires n >= 0x1_0000
    ensures n % 0x1_0000 + n / 0x1_0000 < n
    ensures Folded(n % 0x1_0000 + n / 0x1_0000) == Folded(n)
  {
    var high, low := n / 0x1_0000, n % 0x1_0000;
    assert n == high * 0xFFFF + (high + low);
    assert (n - 1) % 0xFFFF == (high + low - 1) % 0xFFFF;
  }

  // ---------- refinement of one's-complement addition ----------

  lemma FoldAdds(word: u16, n: nat)
    ensures Folded(word + n) == OnesAdd(word, Folded(n))
  {
    if n > 0 {
      var q, f := (n - 1) / 0xFFFF, Folded(n);
      assert n == q * 0xFFFF + f;
      if word + f > 0xFFFF {
        assert (word + n - 1) == (q + 1) * 0xFFFF + (word + f - 0xFFFF - 1);
      } else {
        assert (word + n - 1) == q * 0xFFFF + (word + f - 1);
      }
    }
  }

  lemma {:induction false} OnesSumFolds(s: seq<byte>)
    ensures OnesSum(s) == Folded(WordSum(s))
    decreases |s|
  {
    if s != [] {
      OnesSumFolds(OtherWords(s));
      FoldAdds(FirstWord(s), WordSum(OtherWords(s)));
    }
  }

  lemma {:induction false} WordSumBound(s: seq<byte>)
    ensures 2 * WordSum(s) <= 0xFFFF * (|s| + 1)
    ensures |s| % 2 == 0 ==> 2 * WordSum(s) <= 0xFFFF * |s|
    decreases |s|
  {
    if s != [] {
      WordSumBound(OtherWords(s));
    }
  }

  /** The longest input on which the 32-bit accumulator cannot wrap. */
  const MAX_LENGTH := 131074

  lemma AccumulatorFits(s: seq<byte>)
    requires |s| <= MAX_LENGTH
    ensures WordSum(s) < WRAP
  {
    WordSumBound(s);
  }

  /** The all-ones input one byte over the limit, which sums to more than 32 bits hold. */
  function Ones(n: nat): seq<byte> {
    seq(n, i => 0xFF)
  }

  lemma {:induction false} OnesThenZeros(words: nat, zeros: nat)
    ensures WordSum(Ones(2 * words) + [0xFF] + Zeros(zeros)) == 0xFFFF * words + 0xFF00
    decreases words
  {
    var s := Ones(2 * words) + [0xFF] + Zeros(zeros);
    if words > 0 {
      assert s[2..] == Ones(2 * (words - 1)) + [0xFF] + Zeros(zeros);
      OnesThenZeros(words - 1, zeros);
    } else if zeros > 0 {
      assert s[2..] == Zeros(zeros - 1);
      ZerosSum(zeros - 1);
    }
  }

  lemma {:induction false} ZerosSum(n: nat)
    ensures WordSum(Zeros(n)) == 0
  {
    if n >= 2 {
      assert Zeros(n)[2..] == Zeros(n - 2);
      ZerosSum(n - 2);
    }
  }

  ghost predicate RightForLength(n: nat) {
    forall s: seq<byte> | |s| == n :: CheckSum(s) == 0xFFFF - OnesSum(s)
  }

  /** The program computes the complement of the one's-complement sum of every input of a length if
      and only if that length is at most 131074 bytes. */
  lemma ChecksumRefinesOnesSum(n: nat)
    ensures RightForLength(n) <==> n <= MAX_LENGTH
  {
    if n <= MAX_LENGTH {
      forall s: seq<byte> | |s| == n
        ensures CheckSum(s) == 0xFFFF - OnesSum(s)
      {
        AccumulatorFits(s);
        OnesSumFolds(s);
      }
    } else {
      var s := Ones(2 * 0x1_0001) + [0xFF] + Zeros(n - MAX_LENGTH - 1);
      OnesThenZeros(0x1_0001, n - MAX_LENGTH - 1);
      OnesSumFolds(s);
      assert WordSum(s) == WRAP + 0xFEFF;
      assert CheckSum(s) == 0xFFFF - 0xFEFF && OnesSum(s) == 0xFF00;
    }
  }

  // ---------- sums of pieces ----------

  lemma {:induction false} WordSumConcat(a: seq<byte>, b: seq<byte>)
    requires |a| % 2 == 0
    ensures WordSum(a + b) == WordSum(a) + WordSum(b)
    decreases |a|
  {
    if a == [] {
      assert a + b == b;
    } else {
      assert (a + b)[0] == a[0] && (a + b)[1] == a[1] && (a + b)[2..] == a[2..] + b;
      WordSumConcat(a[2..], b);
    }
  }

  /** Storing a 16-bit field adds it to the sum of a record that had zero there. */
  lemma FieldAdds(front: seq<byte>, value: u16, back: seq<byte>)
    requires |front| % 2 == 0
    ensures WordSum(front + Be16(value) + back) == WordSum(front + Be16(0) + back) + value
  {
    forall v: u16
      ensures WordSum(front + Be16(v) + back) == WordSum(front) + v + WordSum(back)
    {
      WordSumConcat(front + Be16(v), back);
      WordSumConcat(front, Be16(v));
      assert Be16(v)[2..] == [];
    }
  }

  /** A sum folds to all ones exactly when it is a positive multiple of 0xFFFF. */
  lemma AllOnes(n: nat)
    ensures Folded(n) == 0xFFFF <==> n > 0 && n % 0xFFFF == 0
  {
  }
}
