/**
 The Internet checksum (RFC 1071): the simple 16-bit form, and the fast one that adds eight bytes
 at a time in the machine's own byte order with end-around carries.
 */
module Checksum {
  import opened Bytes

  const TWO_64: int := 0x1_0000_0000_0000_0000

  /** The sum of the big-endian 16-bit words of `b`, an odd last byte padded with zero. */
  function Sum16(b: seq<byte>): nat {
    if b == [] then 0
    else if |b| == 1 then 256 * b[0]
    else 256 * b[0] + b[1] + Sum16(b[2..])
  }

  /** The ones'-complement value of a sum: zero only for zero, otherwise in `1..65535`. */
  function Canon(t: nat): (r: nat)
    ensures r <= 65535
  {
    if t == 0 then 0 else 1 + (t - 1) % 65535
  }

  /** Two sums that stand for the same ones'-complement value. */
  ghost predicate Same(a: int, b: int) {
    0 <= a && 0 <= b && a % 65535 == b % 65535 && (a == 0 <==> b == 0)
  }

  predicate Even(n: int) {
    n % 2 == 0
  }

  lemma EvenSum(a: int, b: int)
    requires Even(a) && Even(b)
    ensures Even(a + b)
  {
  }

  lemma SameCanon(a: nat, b: nat)
    requires Same(a, b)
    ensures Canon(a) == Canon(b)
    ensures b <= 65535 ==> Canon(b) == b
  {
  }

  lemma SameAdd(a: int, b: int, c: int, d: int)
    requires Same(a, b) && Same(c, d)
    ensures Same(a + c, b + d)
  {
  }

  lemma SameBy(a: nat, b: nat, k: int)
    requires a == b + 65535 * k && (a == 0 <==> b == 0)
    ensures Same(a, b)
  {
  }

  /** Shifting by whole 16-bit words changes nothing. */
  lemma SameShift(a: nat)
    ensures Same(65536 * a, a) && Same(TWO_64 * a, a)
  {
    SameBy(65536 * a, a, a);
    SameBy(TWO_64 * a, a, 281479271743489 * a);
  }

  lemma SameScale(a: int, b: int)
    requires Same(a, b)
    ensures Same(256 * a, 256 * b)
  {
    var k := a / 65535 - b / 65535;
    assert a == b + 65535 * k;
    hide Same;
    assert (a == 0 <==> b == 0) && a >= 0 && b >= 0 by { SameMeans(a, b); }
    SameBy(256 * a, 256 * b, 256 * k);
  }

  lemma SameMeans(a: int, b: int)
    requires Same(a, b)
    ensures a >= 0 && b >= 0 && (a == 0 <==> b == 0)
  {
  }

  lemma SameTrans(a: int, b: int, c: int)
    requires Same(a, b) && Same(b, c)
    ensures Same(a, c)
  {
  }

  /** `(x >> 16) + (x & 0xffff)`. */
  function Fold(x: nat): nat {
    x / 65536 + x % 65536
  }

  lemma FoldSame(x: nat)
    ensures Same(Fold(x), x) && (x > 65535 ==> Fold(x) < x)
  {
    assert x == 65535 * (x / 65536) + Fold(x);
  }

  /** Four folds bring any 64-bit sum down to 16 bits. */
  lemma FourFolds(x: nat)
    requires x < TWO_64
    ensures Fold(Fold(Fold(Fold(x)))) <= 65535
    ensures Fold(Fold(Fold(Fold(x)))) == Canon(x)
  {
    var f1 := Fold(x);
    var f2 := Fold(f1);
    var f3 := Fold(f2);
    FoldSame(x);
    FoldSame(f1);
    FoldSame(f2);
    FoldSame(f3);
    assert f1 <= 0x1_0000_0000_fffe;
    assert f2 <= 0x1_0000_fffe;
    assert f3 <= 0x1_fffe;
    SameTrans(Fold(f3), f3, f2);
    SameTrans(Fold(f3), f2, f1);
    SameTrans(Fold(f3), f1, x);
    SameCanon(x, Fold(f3));
  }

  // ----- Bytes as numbers -----

  function LittleEndian(b: seq<byte>): nat {
    if b == [] then 0 else b[0] + 256 * LittleEndian(b[1..])
  }

  function BigEndian(b: seq<byte>): nat {
    if b == [] then 0 else 256 * BigEndian(b[..|b| - 1]) + b[|b| - 1]
  }

  /** `binary.NativeEndian`: little-endian machines when `le`, big-endian ones otherwise. */
  function Native(le: bool, b: seq<byte>): nat {
    if le then LittleEndian(b) else BigEndian(b)
  }

  function Digits(x: nat, n: nat): (d: seq<byte>)
    ensures |d| == n
  {
    if n == 0 then [] else [x % 256] + Digits(x / 256, n - 1)
  }

  function Pow256(n: nat): nat {
    if n == 0 then 1 else 256 * Pow256(n - 1)
  }

  /** Writing a 64-bit number in native order and reading it back as big-endian. */
  function Swap(le: bool, x: nat): nat {
    if le then BigEndian(Digits(x, 8)) else x
  }

  /** How a sum in native byte order relates to the big-endian one. */
  function Scale(le: bool, x: nat): nat {
    if le then 256 * x else x
  }

  lemma {:induction false} DigitsValue(x: nat, n: nat)
    requires x < Pow256(n)
    ensures LittleEndian(Digits(x, n)) == x
  {
    if n > 0 {
      DigitsValue(x / 256, n - 1);
      assert Digits(x, n)[1..] == Digits(x / 256, n - 1);
    }
  }

  lemma {:induction false} BigEndianBound(b: seq<byte>)
    ensures BigEndian(b) < Pow256(|b|)
  {
    if b != [] {
      BigEndianBound(b[..|b| - 1]);
    }
  }

  lemma {:induction false} LittleEndianBound(b: seq<byte>)
    ensures LittleEndian(b) < Pow256(|b|)
  {
    if b != [] {
      LittleEndianBound(b[1..]);
    }
  }

  lemma Pow256Of8()
    ensures Pow256(8) == TWO_64 && Pow256(4) < TWO_64 && Pow256(2) < TWO_64
  {
    assert Pow256(2) == 65536;
    assert Pow256(4) == 65536 * 65536;
    assert Pow256(6) == 65536 * 65536 * 65536;
  }

  /** Even-length pieces add up. */
  lemma {:induction false} Sum16Append(a: seq<byte>, b: seq<byte>)
    requires Even(|a|)
    ensures Sum16(a + b) == Sum16(a) + Sum16(b)
  {
    if a == [] {
      assert a + b == b;
    } else {
      assert (a + b)[2..] == a[2..] + b;
      Sum16Append(a[2..], b);
    }
  }

  lemma SameSymmetric(a: int, b: int)
    requires Same(a, b)
    ensures Same(b, a)
  {
  }

  /** Read in little-endian order, a sum is 256 times the big-endian one. */
  lemma {:induction false} LittleEndianSame(b: seq<byte>)
    requires Even(|b|)
    ensures Same(LittleEndian(b), 256 * Sum16(b))
  {
    hide Same;
    if b == [] {
      SameBy(0, 0, 0);
    } else {
      var rest := b[2..];
      assert b[1..][1..] == rest;
      var x: int, y: int := b[0], b[1];
      LittleEndianSame(rest);
      SameShift(LittleEndian(rest));
      SameTrans(65536 * LittleEndian(rest), LittleEndian(rest), 256 * Sum16(rest));
      SameBy(x + 256 * y, 256 * (256 * x + y), -x);
      SameAdd(x + 256 * y, 256 * (256 * x + y), 65536 * LittleEndian(rest), 256 * Sum16(rest));
    }
  }

  lemma {:induction false} BigEndianSame(b: seq<byte>)
    requires Even(|b|)
    ensures Same(BigEndian(b), Sum16(b))
  {
    hide Same;
    if b == [] {
      SameBy(0, 0, 0);
    } else {
      var n := |b| - 2;
      var front, last := b[..n], b[n..];
      assert b[..n + 1][..n] == front && b == front + last;
      Sum16Append(front, last);
      var x: int, y: int := b[n], b[n + 1];
      assert last[2..] == [] && Sum16(last) == 256 * x + y;
      BigEndianSame(front);
      SameShift(BigEndian(front));
      SameTrans(65536 * BigEndian(front), BigEndian(front), Sum16(front));
      SameBy(Sum16(last), Sum16(last), 0);
      SameAdd(65536 * BigEndian(front), Sum16(front), Sum16(last), Sum16(last));
    }
  }

  lemma NativeSame(le: bool, b: seq<byte>)
    requires Even(|b|)
    ensures Same(Native(le, b), Scale(le, Sum16(b)))
  {
    hide Same;
    LittleEndianSame(b);
    BigEndianSame(b);
  }

  lemma NativeBound(le: bool, b: seq<byte>)
    requires |b| == 8 || |b| == 4 || |b| == 2
    ensures Native(le, b) < TWO_64
  {
    hide Pow256;
    LittleEndianBound(b);
    BigEndianBound(b);
    Pow256Of8();
  }

  /** Scaling twice is shifting by one word, which is nothing. */
  lemma ScaleTwice(le: bool, x: nat)
    ensures Same(Scale(le, Scale(le, x)), x)
  {
    SameShift(x);
  }

  lemma ScaleSame(le: bool, a: nat, b: nat)
    requires Same(a, b)
    ensures Same(Scale(le, a), Scale(le, b))
  {
    SameScale(a, b);
  }

  lemma SwapSame(le: bool, x: nat)
    requires x < TWO_64
    ensures Swap(le, x) < TWO_64 && Same(Swap(le, x), Scale(le, x))
  {
    hide Same, Digits, Pow256, BigEndian, LittleEndian;
    if le {
      var d := Digits(x, 8);
      Pow256Of8();
      DigitsValue(x, 8);
      BigEndianBound(d);
      BigEndianSame(d);
      LittleEndianSame(d);
      SameScale(x, 256 * Sum16(d));
      SameShift(Sum16(d));
      SameTrans(256 * x, 65536 * Sum16(d), Sum16(d));
      SameSymmetric(256 * x, Sum16(d));
      SameTrans(BigEndian(d), Sum16(d), 256 * x);
    } else {
      SameBy(x, x, 0);
    }
  }

  // ----- The fast form -----

  /** `bits.Add64`: the sum modulo 2^64 and the carry out. */
  function Add64(x: nat, y: nat, carry: nat): (r: (nat, nat))
    requires x < TWO_64 && y < TWO_64 && carry <= 1
    ensures r.0 < TWO_64 && r.1 <= 1 && r.0 + TWO_64 * r.1 == x + y + carry
  {
    var s := x + y + carry;
    if s < TWO_64 then (s, 0) else (s - TWO_64, 1)
  }

  /** Adding one native word into accumulator and carry; a set carry leaves room to add it. */
  lemma Add64Same(x: nat, y: nat, carry: nat)
    requires x < TWO_64 && y < TWO_64 && carry <= 1 && (carry == 1 ==> x <= TWO_64 - 2)
    ensures var (ac, c) := Add64(x, y, carry);
            Same(ac + c, x + carry + y) && (c == 1 ==> ac <= TWO_64 - 2)
  {
    hide Same;
    var (ac, c) := Add64(x, y, carry);
    SameBy(ac + c, x + carry + y, -281479271743489 * c);
  }

  /** One unrolled block: add every 8-byte word of `b`, passing the carry on, and add the last carry. */
  method AddBlock(le: bool, start: nat, b: seq<byte>, words: nat) returns (ac: nat)
    requires start < TWO_64 && |b| == 8 * words
    ensures ac < TWO_64 && Same(ac, start + Scale(le, Sum16(b)))
  {
    hide Same, Sum16, Native, Scale;
    ac := start;
    var carry := 0;
    assert b[..8 * 0] == [];
    NothingSummed(le, ac);
    for k := 0 to words
      invariant ac < TWO_64 && carry <= 1 && (carry == 1 ==> ac <= TWO_64 - 2)
      invariant Same(ac + carry, start + Scale(le, Sum16(b[..8 * k])))
    {
      var word := b[8 * k..8 * k + 8];
      NativeBound(le, word);
      EvenWords(k);
      Add64Same(ac, Native(le, word), carry);
      AddWordSame(le, ac + carry, start, b[..8 * k], word);
      assert b[..8 * k] + word == b[..8 * (k + 1)];
      ghost var before := ac + carry + Native(le, word);
      var (sum, out) := Add64(ac, Native(le, word), carry);
      ac, carry := sum, out;
      SameTrans(ac + carry, before, start + Scale(le, Sum16(b[..8 * (k + 1)])));
    }
    assert b[..8 * words] == b;
    ac := ac + carry;
  }

  lemma Sum16Empty()
    ensures Sum16([]) == 0
  {
  }

  lemma NothingSummed(le: bool, ac: nat)
    ensures Same(ac + 0, ac + Scale(le, Sum16([])))
  {
  }

  lemma AddWordSame(le: bool, acc: nat, start: nat, done: seq<byte>, word: seq<byte>)
    requires Same(acc, start + Scale(le, Sum16(done))) && Even(|done|) && Even(|word|)
    ensures Same(acc + Native(le, word), start + Scale(le, Sum16(done + word)))
  {
    hide Same, Sum16, Native;
    NativeSame(le, word);
    Sum16Append(done, word);
    SameAdd(acc, start + Scale(le, Sum16(done)), Native(le, word), Scale(le, Sum16(word)));
  }

  /** A short word of two or four bytes: its carry is added at once. */
  method AddShort(le: bool, start: nat, b: seq<byte>) returns (ac: nat)
    requires start < TWO_64 && (|b| == 2 || |b| == 4)
    ensures ac < TWO_64 && Same(ac, start + Scale(le, Sum16(b)))
  {
    hide Same, Sum16, Native;
    NativeBound(le, b);
    Add64Same(start, Native(le, b), 0);
    SameBy(start, start, 0);
    NativeSame(le, b);
    SameAdd(start, start, Native(le, b), Scale(le, Sum16(b)));
    var (sum, carry) := Add64(start, Native(le, b), 0);
    SameTrans(sum + carry, start + Native(le, b), start + Scale(le, Sum16(b)));
    ac := sum + carry;
  }

  /** `ac` stands for the initial value plus the part of `b` before `rest`. */
  ghost predicate Summed(le: bool, ac: nat, rest: seq<byte>, b: seq<byte>, initial: nat) {
    && |rest| <= |b| && Even(|b| - |rest|) && rest == b[|b| - |rest|..]
    && ac < TWO_64 && Same(ac, Scale(le, initial + Sum16(b[..|b| - |rest|])))
  }

  lemma SummedStep(le: bool, ac: nat, rest: seq<byte>, b: seq<byte>, initial: nat, n: nat, ac': nat)
    requires Summed(le, ac, rest, b, initial) && n <= |rest| && Even(n)
    requires ac' < TWO_64 && Same(ac', ac + Scale(le, Sum16(rest[..n])))
    ensures Summed(le, ac', rest[n..], b, initial)
  {
    hide Same, Sum16, Scale, Even;
    var m := |b| - |rest|;
    EvenSum(m, n);
    assert b[..m] + rest[..n] == b[..m + n];
    ExtendSum(le, ac, initial, b[..m], rest[..n], ac');
  }

  lemma ExtendSum(le: bool, ac: nat, initial: nat, done: seq<byte>, more: seq<byte>, ac': nat)
    requires Even(|done|) && Same(ac, Scale(le, initial + Sum16(done)))
    requires Same(ac', ac + Scale(le, Sum16(more)))
    ensures Same(ac', Scale(le, initial + Sum16(done + more)))
  {
    hide Same, Sum16;
    var w := Scale(le, Sum16(more));
    Sum16Append(done, more);
    SameBy(w, w, 0);
    SameAdd(ac, Scale(le, initial + Sum16(done)), w, w);
    SameTrans(ac', ac + w, Scale(le, initial + Sum16(done + more)));
  }

  lemma SummedBound(le: bool, ac: nat, rest: seq<byte>, b: seq<byte>, initial: nat)
    requires Summed(le, ac, rest, b, initial)
    ensures ac < TWO_64
  {
  }

  lemma {:induction false} EvenWords(words: nat)
    ensures Even(8 * words)
  {
    if words > 0 {
      EvenWords(words - 1);
      EvenSum(8 * (words - 1), 8);
    }
  }

  /** The unrolled loop and the blocks of 64, 32, 16 and 8 bytes after it. */
  method AddBlocks(le: bool, start: nat, b: seq<byte>, ghost initial: nat) returns (ac: nat, rest: seq<byte>)
    requires Summed(le, start, b, b, initial)
    ensures Summed(le, ac, rest, b, initial) && |rest| < 8
  {
    hide Summed, Same, Sum16;
    ac, rest := start, b;
    while |rest| >= 128
      invariant Summed(le, ac, rest, b, initial)
      decreases |rest|
    {
      ac, rest := AddFront(le, ac, rest, 16, b, initial);
    }
    if |rest| >= 64 {
      ac, rest := AddFront(le, ac, rest, 8, b, initial);
    }
    if |rest| >= 32 {
      ac, rest := AddFront(le, ac, rest, 4, b, initial);
    }
    if |rest| >= 16 {
      ac, rest := AddFront(le, ac, rest, 2, b, initial);
    }
    if |rest| >= 8 {
      ac, rest := AddFront(le, ac, rest, 1, b, initial);
    }
  }

  method AddFront(le: bool, start: nat, b: seq<byte>, words: nat, ghost whole: seq<byte>, ghost initial: nat)
    returns (ac: nat, rest: seq<byte>)
    requires Summed(le, start, b, whole, initial) && 8 * words <= |b|
    ensures Summed(le, ac, rest, whole, initial) && rest == b[8 * words..]
  {
    hide Same, Sum16, Summed, Scale;
    SummedBound(le, start, b, whole, initial);
    EvenWords(words);
    ac := AddBlock(le, start, b[..8 * words], words);
    SummedStep(le, start, b, whole, initial, 8 * words, ac);
    rest := b[8 * words..];
  }

  /** The last seven bytes at most: four, two, and one padded with zero. */
  method AddTail(le: bool, start: nat, b: seq<byte>, ghost whole: seq<byte>, ghost initial: nat) returns (ac: nat)
    requires Summed(le, start, b, whole, initial) && |b| < 8
    ensures ac < TWO_64 && Same(ac, Scale(le, initial + Sum16(whole)))
  {
    hide Same, Sum16, Scale;
    ac := start;
    var rest := b;
    if |rest| >= 4 {
      ac := AddShort(le, ac, rest[..4]);
      SummedStep(le, start, b, whole, initial, 4, ac);
      rest := rest[4..];
    }
    ghost var ac2, rest2 := ac, rest;
    if |rest| >= 2 {
      ac := AddShort(le, ac, rest[..2]);
      SummedStep(le, ac2, rest2, whole, initial, 2, ac);
      rest := rest[2..];
    }
    if |rest| == 1 {
      ghost var ac1 := ac;
      ac := AddShort(le, ac, [rest[0], 0]);
      PaddedByte(le, ac1, rest, whole, initial, ac);
    } else {
      assert whole[..|whole| - |rest|] == whole;
    }
  }

  lemma OddWord(b: seq<byte>)
    requires |b| == 1
    ensures Sum16([b[0], 0]) == Sum16(b)
  {
    assert [b[0], 0][2..] == [];
  }

  /** An odd last byte counts as the high half of a word. */
  lemma PaddedByte(le: bool, ac: nat, rest: seq<byte>, b: seq<byte>, initial: nat, ac': nat)
    requires Summed(le, ac, rest, b, initial) && |rest| == 1
    requires Same(ac', ac + Scale(le, Sum16([rest[0], 0])))
    ensures Same(ac', Scale(le, initial + Sum16(b)))
  {
    hide Same, Sum16, Scale, Even;
    var m := |b| - 1;
    OddWord(rest);
    assert b[..m] + rest == b;
    ExtendSum(le, ac, initial, b[..m], rest, ac');
  }

  /** `checksumNoFold`: no end-around carry is ever lost, whatever the machine's byte order. */
  method ChecksumNoFold(le: bool, b: seq<byte>, initial: nat) returns (r: nat)
    requires initial < TWO_64
    ensures r < TWO_64 && Same(r, initial + Sum16(b))
  {
    hide Same, Sum16, Swap;
    var ac := Swap(le, initial);
    SwapSame(le, initial);
    assert b[..0] == [];
    Sum16Empty();
    var rest;
    ac, rest := AddBlocks(le, ac, b, initial);
    ac := AddTail(le, ac, rest, b, initial);
    r := Swap(le, ac);
    SwapSame(le, ac);
    ghost var total := initial + Sum16(b);
    ScaleSame(le, ac, Scale(le, total));
    ScaleTwice(le, total);
    SameTrans(r, Scale(le, ac), Scale(le, Scale(le, total)));
    SameTrans(r, Scale(le, Scale(le, total)), total);
  }

  /** `checksum`: four folds of the fast sum are the ones'-complement value. */
  method FastChecksum(le: bool, b: seq<byte>, initial: nat) returns (r: nat)
    requires initial < TWO_64
    ensures r == Canon(initial + Sum16(b))
  {
    hide Same, Sum16, Fold, Canon;
    var ac := ChecksumNoFold(le, b, initial);
    FourFolds(ac);
    SameCanon(ac, initial + Sum16(b));
    r := Fold(Fold(Fold(Fold(ac))));
  }

  // ----- The simple form -----

  const TWO_32: int := 0x1_0000_0000

  /** The summing loop of the simple form, on a 32-bit accumulator. */
  method SumWords(b: seq<byte>, initial: nat) returns (sum: nat)
    requires initial <= 65535
    ensures sum < TWO_32 && sum == (initial + Sum16(b)) % TWO_32
  {
    sum := initial;
    var rest := b;
    while |rest| >= 2
      invariant sum < TWO_32 && (sum + Sum16(rest)) % TWO_32 == (initial + Sum16(b)) % TWO_32
      decreases |rest|
    {
      var word: int := 256 * (rest[0] as int) + rest[1] as int;
      ghost var before := sum;
      sum := (sum + word) % TWO_32;
      Wraps(before + word, Sum16(rest[2..]));
      rest := rest[2..];
    }
    if |rest| == 1 {
      var word: int := 256 * (rest[0] as int);
      sum := (sum + word) % TWO_32;
    }
  }

  lemma Wraps(x: nat, y: nat)
    ensures (x % TWO_32 + y) % TWO_32 == (x + y) % TWO_32
  {
  }

  /** A buffer of at most 131070 bytes cannot overflow the 32-bit accumulator. */
  lemma {:induction false} Sum16Bound(b: seq<byte>)
    ensures Sum16(b) <= 65535 * ((|b| + 1) / 2)
  {
    if |b| >= 2 {
      Sum16Bound(b[2..]);
    }
  }

  /** `Checksum`: the complement of the ones'-complement sum, for every buffer the accumulator can hold. */
  method SimpleChecksum(b: seq<byte>, initial: nat) returns (r: nat)
    requires initial <= 65535
    ensures |b| <= 131070 ==> r == 65535 - Canon(initial + Sum16(b))
    ensures r <= 65535
  {
    hide Sum16;
    var sum := SumWords(b, initial);
    ghost var total := sum;
    while sum > 0xffff
      invariant Canon(sum) == Canon(total)
      decreases sum
    {
      FoldSame(sum);
      SameCanon(Fold(sum), sum);
      sum := Fold(sum);
    }
    SameCanon(sum, sum);
    Sum16Bound(b);
    r := 65535 - sum;
  }

  /** The two forms agree on every IPv4-sized buffer, on either kind of machine. */
  method FastIsSimple(le: bool, b: seq<byte>, initial: nat) returns (fast: nat, simple: nat)
    requires initial <= 65535 && |b| <= 65535
    ensures fast == 65535 - simple
  {
    fast := FastChecksum(le, b, initial);
    simple := SimpleChecksum(b, initial);
  }

  /** Storing the complement at an even offset makes the sum over the whole buffer all ones. */
  lemma StoredChecksumVerifies(b: seq<byte>, off: nat, initial: nat)
    requires Even(off) && off + 1 < |b| && b[off] == 0 && b[off + 1] == 0
    ensures var c := 65535 - Canon(initial + Sum16(b));
            Canon(initial + Sum16(b[off := c / 256][off + 1 := c % 256])) == 65535
  {
    var t := initial + Sum16(b);
    var c := 65535 - Canon(t);
    var b' := b[off := c / 256][off + 1 := c % 256];
    StoredWord(b, off, c / 256, c % 256);
    assert initial + Sum16(b') == t + c;
    CanonAllOnes(t);
  }

  lemma CanonAllOnes(t: nat)
    ensures Canon(t + 65535 - Canon(t)) == 65535
  {
  }

  lemma StoredWord(b: seq<byte>, off: nat, hi: byte, lo: byte)
    requires Even(off) && off + 1 < |b| && b[off] == 0 && b[off + 1] == 0
    ensures Sum16(b[off := hi][off + 1 := lo]) == Sum16(b) + 256 * (hi as int) + lo as int
  {
    var b' := b[off := hi][off + 1 := lo];
    assert b == b[..off] + b[off..] && b' == b[..off] + b'[off..];
    Sum16Append(b[..off], b[off..]);
    Sum16Append(b[..off], b'[off..]);
    assert b[off..][2..] == b'[off..][2..];
  }

  // ----- The pseudo-header -----

  /** Addresses, a zero, the protocol and the transport length, as both forms sum them. */
  function PseudoHeader(proto: byte, src: seq<byte>, dst: seq<byte>, len: nat): seq<byte>
    requires len <= 65535
  {
    src + dst + [0, proto] + [len / 256, len % 256]
  }

  /** `pseudoHeaderChecksumNoFold`: four chained sums stand for the whole pseudo-header. */
  method PseudoHeaderNoFold(le: bool, proto: byte, src: seq<byte>, dst: seq<byte>, len: nat) returns (sum: nat)
    requires len <= 65535 && Even(|src|) && Even(|dst|)
    ensures sum < TWO_64 && Same(sum, Sum16(PseudoHeader(proto, src, dst, len)))
  {
    hide Same, Sum16;
    sum := ChecksumNoFold(le, src, 0);
    ghost var s1 := sum;
    sum := ChecksumNoFold(le, dst, sum);
    Chained(s1, sum, src, dst);
    ghost var s2 := sum;
    sum := ChecksumNoFold(le, [0, proto], sum);
    Chained(s2, sum, src + dst, [0, proto]);
    ghost var s3 := sum;
    var tmp: seq<byte> := [len / 256, len % 256];
    sum := ChecksumNoFold(le, tmp, sum);
    Chained(s3, sum, src + dst + [0, proto], tmp);
  }

  lemma Chained(s: nat, s': nat, a: seq<byte>, b: seq<byte>)
    requires Same(s, Sum16(a)) && Same(s', s + Sum16(b)) && Even(|a|)
    ensures Same(s', Sum16(a + b))
  {
    hide Same, Sum16;
    Sum16Append(a, b);
    SameBy(Sum16(b), Sum16(b), 0);
    SameAdd(s, Sum16(a), Sum16(b), Sum16(b));
    SameTrans(s', s + Sum16(b), Sum16(a + b));
  }

  /** `PseudoHeaderChecksum`: the uncomplemented accumulator of the twelve pseudo-header bytes. */
  method SimplePseudoHeader(proto: byte, src: seq<byte>, dst: seq<byte>, len: nat) returns (r: nat)
    requires len <= 65535 && |src| == 4 && |dst| == 4
    ensures r <= 65535 && r == Canon(Sum16(PseudoHeader(proto, src, dst, len)))
  {
    hide Sum16, Canon;
    var csum := SimpleChecksum(PseudoHeader(proto, src, dst, len), 0);
    r := 65535 - csum;
  }

  /** Folding the initial value first, or not at all, gives the same checksum. */
  lemma CanonOfInitial(a: nat, b: nat, t: nat)
    requires Same(a, b)
    ensures Canon(a + t) == Canon(b + t)
    ensures Canon(Canon(b) + t) == Canon(b + t)
  {
    hide Same;
    SameBy(t, t, 0);
    SameAdd(a, b, t, t);
    SameCanon(a + t, b + t);
    CanonSame(b);
    SameAdd(Canon(b), b, t, t);
    SameCanon(Canon(b) + t, b + t);
  }

  lemma CanonSame(t: nat)
    ensures Same(Canon(t), t)
  {
  }
}
