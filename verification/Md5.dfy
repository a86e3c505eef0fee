// Streaming MD5 (thrift/compiler/cpp/src/md5.c) against the one-shot digest of RFC 1321.
module Md5 {
  type Byte = bv8
  type Word = bv32
  type Count = x: int | 0 <= x < TWO_32
  type Block = b: seq<Byte> | |b| == 64 witness seq(64, _ => 0)

  const TWO_32 := 0x1_0000_0000
  const TWO_64 := 0x1_0000_0000_0000_0000
  const INT_MAX := 0x7fff_ffff

  // ---------------------------------------------------------------------------
  // Section 3.4 of RFC 1321: one block, as an indexed loop of 64 operations
  // ---------------------------------------------------------------------------

  datatype Regs = Regs(a: Word, b: Word, c: Word, d: Word)

  // Section 3.3: the initial value of the four registers.
  const INITIAL := Regs(0x67452301, 0xefcdab89, 0x98badcfe, 0x10325476)

  // The 64-element table of section 3.4, T[i + 1] = floor(4294967296 * abs(sin(i + 1))).
  function Sine(i: nat): Word
    requires i < 64
  {
    if i < 16 then (match i
      case 0 => 0xd76aa478 case 1 => 0xe8c7b756 case 2 => 0x242070db case 3 => 0xc1bdceee
      case 4 => 0xf57c0faf case 5 => 0x4787c62a case 6 => 0xa8304613 case 7 => 0xfd469501
      case 8 => 0x698098d8 case 9 => 0x8b44f7af case 10 => 0xffff5bb1 case 11 => 0x895cd7be
      case 12 => 0x6b901122 case 13 => 0xfd987193 case 14 => 0xa679438e case _ => 0x49b40821)
    else if i < 32 then (match i
      case 16 => 0xf61e2562 case 17 => 0xc040b340 case 18 => 0x265e5a51 case 19 => 0xe9b6c7aa
      case 20 => 0xd62f105d case 21 => 0x02441453 case 22 => 0xd8a1e681 case 23 => 0xe7d3fbc8
      case 24 => 0x21e1cde6 case 25 => 0xc33707d6 case 26 => 0xf4d50d87 case 27 => 0x455a14ed
      case 28 => 0xa9e3e905 case 29 => 0xfcefa3f8 case 30 => 0x676f02d9 case _ => 0x8d2a4c8a)
    else if i < 48 then (match i
      case 32 => 0xfffa3942 case 33 => 0x8771f681 case 34 => 0x6d9d6122 case 35 => 0xfde5380c
      case 36 => 0xa4beea44 case 37 => 0x4bdecfa9 case 38 => 0xf6bb4b60 case 39 => 0xbebfbc70
      case 40 => 0x289b7ec6 case 41 => 0xeaa127fa case 42 => 0xd4ef3085 case 43 => 0x04881d05
      case 44 => 0xd9d4d039 case 45 => 0xe6db99e5 case 46 => 0x1fa27cf8 case _ => 0xc4ac5665)
    else (match i
      case 48 => 0xf4292244 case 49 => 0x432aff97 case 50 => 0xab9423a7 case 51 => 0xfc93a039
      case 52 => 0x655b59c3 case 53 => 0x8f0ccc92 case 54 => 0xffeff47d case 55 => 0x85845dd1
      case 56 => 0x6fa87e4f case 57 => 0xfe2ce6e0 case 58 => 0xa3014314 case 59 => 0x4e0811a1
      case 60 => 0xf7537e82 case 61 => 0xbd3af235 case 62 => 0x2ad7d2bb case _ => 0xeb86d391)
  }

  function Add(x: Word, y: Word): Word { x + y }

  function F(x: Word, y: Word, z: Word): Word { (x & y) | (!x & z) }

  function G(x: Word, y: Word, z: Word): Word { (x & z) | (y & !z) }

  function H(x: Word, y: Word, z: Word): Word { x ^ y ^ z }

  function I(x: Word, y: Word, z: Word): Word { y ^ (x | !z) }

  // Section 3.4: F selects by x, G by z, H is the parity, and I turns y over unless only z is set.
  lemma {:induction false} FSelects(x: Word, y: Word, z: Word)
    ensures F(x, y, z) & x == y & x
    ensures F(x, y, z) & !x == z & !x
  {
  }

  lemma {:induction false} GSelects(x: Word, y: Word, z: Word)
    ensures G(x, y, z) & z == x & z
    ensures G(x, y, z) & !z == y & !z
  {
  }

  lemma {:induction false} HParity(x: Word, y: Word, z: Word)
    ensures (H(x, y, z) ^ x) & !(y ^ z) == 0
    ensures (H(x, y, z) ^ !x) & (y ^ z) == 0
  {
  }

  lemma {:induction false} IInverts(x: Word, y: Word, z: Word)
    ensures I(x, y, z) & (x | !z) == !y & (x | !z)
    ensures I(x, y, z) & (!x & z) == y & (!x & z)
  {
  }

  // X <<< n: n times, the top bit moves to the bottom.
  function Rotate(x: Word, n: Word): Word
    decreases n
  {
    if n == 0 then x else Rotate((x << 1) | (x >> 31), n - 1)
  }

  // Word index, shift and mixing function of operation i of the loop.
  function Index(i: nat): nat
    requires i < 64
  {
    if i < 16 then i else if i < 32 then (5 * i + 1) % 16 else if i < 48 then (3 * i + 5) % 16 else (7 * i) % 16
  }

  function Pick(q: nat, s0: Word, s1: Word, s2: Word, s3: Word): Word {
    if q == 0 then s0 else if q == 1 then s1 else if q == 2 then s2 else s3
  }

  function Shift(i: nat): (n: Word)
    requires i < 64
    ensures 0 < n < 32
  {
    if i < 16 then Pick(i % 4, 7, 12, 17, 22) else if i < 32 then Pick(i % 4, 5, 9, 14, 20)
    else if i < 48 then Pick(i % 4, 4, 11, 16, 23) else Pick(i % 4, 6, 10, 15, 21)
  }

  function Mix(i: nat, r: Regs): Word
    requires i < 64
  {
    if i < 16 then F(r.b, r.c, r.d) else if i < 32 then G(r.b, r.c, r.d)
    else if i < 48 then H(r.b, r.c, r.d) else I(r.b, r.c, r.d)
  }

  function Operation(i: nat, r: Regs, x: seq<Word>): Regs
    requires i < 64 && |x| == 16
  {
    Regs(r.d, Add(Rotate(Add(Add(Add(r.a, Mix(i, r)), x[Index(i)]), Sine(i)), Shift(i)), r.b), r.b, r.c)
  }

  // The registers after the first n operations on a block.
  function Rounds(n: nat, r: Regs, x: seq<Word>): Regs
    requires n <= 64 && |x| == 16
    decreases |x|, n, 0
  {
    if n == 0 then r else After(n - 1, r, x)
  }

  // The registers after operation i.
  function After(i: nat, r: Regs, x: seq<Word>): Regs
    requires i < 64 && |x| == 16
    decreases |x|, i, 1
  {
    Operation(i, Rounds(i, r, x), x)
  }

  // The registers before, between and after the 64 operations.
  ghost predicate Runs(trace: seq<Regs>, x: seq<Word>) {
    && |x| == 16 && |trace| == 65
    && forall i {:trigger Operation(i, trace[i], x)} :: 0 <= i < 64 ==> trace[i + 1] == Operation(i, trace[i], x)
  }

  // Section 2: words are stored least significant byte first.
  function LittleEndian(p: seq<Byte>): Word
    requires |p| == 4
  {
    (p[0] as Word) | ((p[1] as Word) << 8) | ((p[2] as Word) << 16) | ((p[3] as Word) << 24)
  }

  function Words(data: Block): (x: seq<Word>)
    ensures |x| == 16
  {
    seq(16, i requires 0 <= i < 16 => LittleEndian(data[4 * i..4 * i + 4]))
  }

  function AddRegs(r: Regs, s: Regs): Regs {
    Regs(Add(r.a, s.a), Add(r.b, s.b), Add(r.c, s.c), Add(r.d, s.d))
  }

  function Compress(r: Regs, data: Block): Regs {
    var x := Words(data);
    var s := Rounds(4 * |x|, r, x);
    AddRegs(r, s)
  }

  // The registers after all the 64-byte blocks of a message.
  function Fold(r: Regs, msg: seq<Byte>): Regs
    requires |msg| % 64 == 0
    decreases |msg|, 1
  {
    if msg == [] then r else LastBlock(r, msg)
  }

  function LastBlock(r: Regs, msg: seq<Byte>): Regs
    requires |msg| % 64 == 0 && msg != []
    decreases |msg|, 0
  {
    Compress(Fold(r, msg[..|msg| - 64]), msg[|msg| - 64..])
  }

  // ---------------------------------------------------------------------------
  // Sections 3.1, 3.2 and 3.5: padding, length and output
  // ---------------------------------------------------------------------------

  // Base-256 digit k of w.
  function Digit(w: nat, k: nat): (d: nat)
    ensures d < 0x100
  {
    if k == 0 then w % 0x100 else Digit(w / 0x100, k - 1)
  }

  function ByteOf(n: nat): Byte
    requires n < 0x100
  {
    n as Byte
  }

  function BitLength(n: nat): int { (8 * n) % TWO_64 }

  // A 64-bit length as two 32-bit words, low-order word first, each least significant byte first.
  function LengthBytes(n: nat): (s: seq<Byte>)
    requires n < TWO_64
    ensures |s| == 8
  {
    seq(8, k requires 0 <= k < 8 => ByteOf(Digit(n, k)))
  }

  // The number of zero bytes after the 0x80 byte: the least one that reaches 56 modulo 64.
  function Zeros(n: nat): nat { (55 - n) % 64 }

  function Padding(n: nat): seq<Byte> {
    [0x80] + seq(Zeros(n), _ => 0)
  }

  function Padded(msg: seq<Byte>): (p: seq<Byte>)
    ensures |p| % 64 == 0
  {
    msg + Padding(|msg|) + LengthBytes(BitLength(|msg|))
  }

  function Output(r: Regs): seq<Byte> {
    WordBytes(r.a) + WordBytes(r.b) + WordBytes(r.c) + WordBytes(r.d)
  }

  function LowByte(w: Word): Byte { (w & 0xff) as Byte }

  function WordBytes(w: Word): (s: seq<Byte>)
    ensures |s| == 4
  {
    [LowByte(w), LowByte(w >> 8), LowByte(w >> 16), LowByte(w >> 24)]
  }

  // The MD5 of a message as RFC 1321 defines it.
  function Digest(msg: seq<Byte>): seq<Byte> {
    Output(Fold(INITIAL, Padded(msg)))
  }

  lemma {:induction false} PaddingIsLeast(n: nat, k: nat)
    requires (n + 1 + k) % 64 == 56
    ensures (n + |Padding(n)|) % 64 == 56 && 1 <= |Padding(n)| <= 64
    ensures Zeros(n) <= k
  {
    assert |Padding(n)| == 1 + Zeros(n);
  }

  // Storing a word and reading it back.
  lemma {:induction false} WordBytesDecode(w: Word)
    ensures LittleEndian(WordBytes(w)) == w
  {
  }

  // The bytes of the two words, low-order word first, are the digits of the 64-bit number.
  lemma {:induction false} TwoWords(low: Count, high: Count, k: nat)
    requires k < 8
    ensures Digit(low + TWO_32 * high, k) == if k < 4 then Digit(low, k) else Digit(high, k - 4)
  {
    var l1, l2, l3 := low / 0x100, low / 0x100 / 0x100, low / 0x100 / 0x100 / 0x100;
    var n := low + TWO_32 * high;
    assert n / 0x100 == l1 + 0x100_0000 * high;
    assert n / 0x100 / 0x100 == l2 + 0x1_0000 * high;
    assert n / 0x100 / 0x100 / 0x100 == l3 + 0x100 * high;
    assert n / 0x100 / 0x100 / 0x100 / 0x100 == high;
    Digits4(n, k);
    Digits4(low, k);
  }

  lemma {:induction false} Digits4(n: nat, k: nat)
    ensures Digit(n, 0) == n % 0x100
    ensures Digit(n, 1) == n / 0x100 % 0x100
    ensures Digit(n, 2) == n / 0x100 / 0x100 % 0x100
    ensures Digit(n, 3) == n / 0x100 / 0x100 / 0x100 % 0x100
    ensures k >= 4 ==> Digit(n, k) == Digit(n / 0x100 / 0x100 / 0x100 / 0x100, k - 4)
  {
    var n1, n2 := n / 0x100, n / 0x100 / 0x100;
    assert Digit(n, 3) == Digit(n1, 2) == Digit(n2, 1) == Digit(n2 / 0x100, 0);
    assert Digit(n, 2) == Digit(n1, 1) == Digit(n2, 0);
    if k >= 4 {
      assert Digit(n, k) == Digit(n1, k - 1) == Digit(n2, k - 2) == Digit(n2 / 0x100, k - 3);
    }
  }

  // ---------------------------------------------------------------------------
  // Splitting a message into whole blocks and a tail
  // ---------------------------------------------------------------------------

  function Whole(msg: seq<Byte>): (w: seq<Byte>)
    ensures |w| % 64 == 0
  {
    msg[..64 * (|msg| / 64)]
  }

  function Tail(msg: seq<Byte>): seq<Byte> {
    msg[64 * (|msg| / 64)..]
  }

  lemma {:induction false} FoldSnoc(r: Regs, msg: seq<Byte>, block: Block)
    requires |msg| % 64 == 0
    ensures Fold(r, msg + block) == Compress(Fold(r, msg), block)
  {
    assert (msg + block)[..|msg|] == msg && (msg + block)[|msg|..] == block;
    assert Fold(r, msg + block) == LastBlock(r, msg + block);
  }

  // ---------------------------------------------------------------------------
  // md5_process
  // ---------------------------------------------------------------------------

  const T_MASK: Word := 0xffff_ffff

  // The ROTATE_LEFT macro.
  function RotateLeft(x: Word, n: Word): Word
    requires 0 < n < 32
  {
    (x << n) | (x >> (32 - n))
  }

  lemma {:induction false} RotateOneMore(x: Word, n: Word)
    requires 1 < n < 32
    ensures RotateLeft((x << 1) | (x >> 31), n - 1) == RotateLeft(x, n)
  {
  }

  // The two shifts of the macro rotate by n positions.
  lemma {:induction false} RotateMacro(x: Word, n: Word)
    requires 0 < n < 32
    ensures RotateLeft(x, n) == Rotate(x, n)
    decreases n
  {
    var y := (x << 1) | (x >> 31);
    if n == 1 {
      assert Rotate(x, 1) == Rotate(y, 0);
    } else {
      RotateMacro(y, n - 1);
      RotateOneMore(x, n);
    }
  }

  // The SET macro of round 1, as operation n of the loop.
  method SetF(ghost n: nat, ghost trace: seq<Regs>, a: Word, b: Word, c: Word, d: Word, x: seq<Word>, k: nat, s: Word,
              ti: Word)
    returns (a': Word)
    requires 0 <= n < 16 && Runs(trace, x)
    requires Regs(a, b, c, d) == trace[n]
    requires k == Index(n) && s == Shift(n) && ti == Sine(n)
    ensures trace[n + 1] == Regs(d, a', b, c)
  {
    var t := Add(Add(Add(a, F(b, c, d)), x[k]), ti);
    RotateMacro(t, s);
    a' := Add(RotateLeft(t, s), b);
    assert trace[n + 1] == Operation(n, trace[n], x);
  }

  // The SET macro of round 2, as operation n of the loop.
  method SetG(ghost n: nat, ghost trace: seq<Regs>, a: Word, b: Word, c: Word, d: Word, x: seq<Word>, k: nat, s: Word,
              ti: Word)
    returns (a': Word)
    requires 16 <= n < 32 && Runs(trace, x)
    requires Regs(a, b, c, d) == trace[n]
    requires k == Index(n) && s == Shift(n) && ti == Sine(n)
    ensures trace[n + 1] == Regs(d, a', b, c)
  {
    var t := Add(Add(Add(a, G(b, c, d)), x[k]), ti);
    RotateMacro(t, s);
    a' := Add(RotateLeft(t, s), b);
    assert trace[n + 1] == Operation(n, trace[n], x);
  }

  // The SET macro of round 3, as operation n of the loop.
  method SetH(ghost n: nat, ghost trace: seq<Regs>, a: Word, b: Word, c: Word, d: Word, x: seq<Word>, k: nat, s: Word,
              ti: Word)
    returns (a': Word)
    requires 32 <= n < 48 && Runs(trace, x)
    requires Regs(a, b, c, d) == trace[n]
    requires k == Index(n) && s == Shift(n) && ti == Sine(n)
    ensures trace[n + 1] == Regs(d, a', b, c)
  {
    var t := Add(Add(Add(a, H(b, c, d)), x[k]), ti);
    RotateMacro(t, s);
    a' := Add(RotateLeft(t, s), b);
    assert trace[n + 1] == Operation(n, trace[n], x);
  }

  // The SET macro of round 4, as operation n of the loop.
  method SetI(ghost n: nat, ghost trace: seq<Regs>, a: Word, b: Word, c: Word, d: Word, x: seq<Word>, k: nat, s: Word,
              ti: Word)
    returns (a': Word)
    requires 48 <= n < 64 && Runs(trace, x)
    requires Regs(a, b, c, d) == trace[n]
    requires k == Index(n) && s == Shift(n) && ti == Sine(n)
    ensures trace[n + 1] == Regs(d, a', b, c)
  {
    var t := Add(Add(Add(a, I(b, c, d)), x[k]), ti);
    RotateMacro(t, s);
    a' := Add(RotateLeft(t, s), b);
    assert trace[n + 1] == Operation(n, trace[n], x);
  }

  // The sixteen operations of round 1 (md5.c).
  method Round1(ghost trace: seq<Regs>, s: Regs, x: seq<Word>) returns (t: Regs)
    requires Runs(trace, x) && s == trace[0]
    ensures t == trace[16]
  {
    var a, b, c, d := s.a, s.b, s.c, s.d;
    a := SetF(0, trace, a, b, c, d, x, 0, 7, T_MASK ^ 0x28955b87);
    d := SetF(1, trace, d, a, b, c, x, 1, 12, T_MASK ^ 0x173848a9);
    c := SetF(2, trace, c, d, a, b, x, 2, 17, 0x242070db);
    b := SetF(3, trace, b, c, d, a, x, 3, 22, T_MASK ^ 0x3e423111);
    a := SetF(4, trace, a, b, c, d, x, 4, 7, T_MASK ^ 0x0a83f050);
    d := SetF(5, trace, d, a, b, c, x, 5, 12, 0x4787c62a);
    c := SetF(6, trace, c, d, a, b, x, 6, 17, T_MASK ^ 0x57cfb9ec);
    b := SetF(7, trace, b, c, d, a, x, 7, 22, T_MASK ^ 0x02b96afe);
    a := SetF(8, trace, a, b, c, d, x, 8, 7, 0x698098d8);
    d := SetF(9, trace, d, a, b, c, x, 9, 12, T_MASK ^ 0x74bb0850);
    c := SetF(10, trace, c, d, a, b, x, 10, 17, T_MASK ^ 0x0000a44e);
    b := SetF(11, trace, b, c, d, a, x, 11, 22, T_MASK ^ 0x76a32841);
    a := SetF(12, trace, a, b, c, d, x, 12, 7, 0x6b901122);
    d := SetF(13, trace, d, a, b, c, x, 13, 12, T_MASK ^ 0x02678e6c);
    c := SetF(14, trace, c, d, a, b, x, 14, 17, T_MASK ^ 0x5986bc71);
    b := SetF(15, trace, b, c, d, a, x, 15, 22, 0x49b40821);
    t := Regs(a, b, c, d);
  }

  // The sixteen operations of round 2 (md5.c).
  method Round2(ghost trace: seq<Regs>, s: Regs, x: seq<Word>) returns (t: Regs)
    requires Runs(trace, x) && s == trace[16]
    ensures t == trace[32]
  {
    var a, b, c, d := s.a, s.b, s.c, s.d;
    a := SetG(16, trace, a, b, c, d, x, 1, 5, T_MASK ^ 0x09e1da9d);
    d := SetG(17, trace, d, a, b, c, x, 6, 9, T_MASK ^ 0x3fbf4cbf);
    c := SetG(18, trace, c, d, a, b, x, 11, 14, 0x265e5a51);
    b := SetG(19, trace, b, c, d, a, x, 0, 20, T_MASK ^ 0x16493855);
    a := SetG(20, trace, a, b, c, d, x, 5, 5, T_MASK ^ 0x29d0efa2);
    d := SetG(21, trace, d, a, b, c, x, 10, 9, 0x02441453);
    c := SetG(22, trace, c, d, a, b, x, 15, 14, T_MASK ^ 0x275e197e);
    b := SetG(23, trace, b, c, d, a, x, 4, 20, T_MASK ^ 0x182c0437);
    a := SetG(24, trace, a, b, c, d, x, 9, 5, 0x21e1cde6);
    d := SetG(25, trace, d, a, b, c, x, 14, 9, T_MASK ^ 0x3cc8f829);
    c := SetG(26, trace, c, d, a, b, x, 3, 14, T_MASK ^ 0x0b2af278);
    b := SetG(27, trace, b, c, d, a, x, 8, 20, 0x455a14ed);
    a := SetG(28, trace, a, b, c, d, x, 13, 5, T_MASK ^ 0x561c16fa);
    d := SetG(29, trace, d, a, b, c, x, 2, 9, T_MASK ^ 0x03105c07);
    c := SetG(30, trace, c, d, a, b, x, 7, 14, 0x676f02d9);
    b := SetG(31, trace, b, c, d, a, x, 12, 20, T_MASK ^ 0x72d5b375);
    t := Regs(a, b, c, d);
  }

  // The sixteen operations of round 3 (md5.c).
  method Round3(ghost trace: seq<Regs>, s: Regs, x: seq<Word>) returns (t: Regs)
    requires Runs(trace, x) && s == trace[32]
    ensures t == trace[48]
  {
    var a, b, c, d := s.a, s.b, s.c, s.d;
    a := SetH(32, trace, a, b, c, d, x, 5, 4, T_MASK ^ 0x0005c6bd);
    d := SetH(33, trace, d, a, b, c, x, 8, 11, T_MASK ^ 0x788e097e);
    c := SetH(34, trace, c, d, a, b, x, 11, 16, 0x6d9d6122);
    b := SetH(35, trace, b, c, d, a, x, 14, 23, T_MASK ^ 0x021ac7f3);
    a := SetH(36, trace, a, b, c, d, x, 1, 4, T_MASK ^ 0x5b4115bb);
    d := SetH(37, trace, d, a, b, c, x, 4, 11, 0x4bdecfa9);
    c := SetH(38, trace, c, d, a, b, x, 7, 16, T_MASK ^ 0x0944b49f);
    b := SetH(39, trace, b, c, d, a, x, 10, 23, T_MASK ^ 0x4140438f);
    a := SetH(40, trace, a, b, c, d, x, 13, 4, 0x289b7ec6);
    d := SetH(41, trace, d, a, b, c, x, 0, 11, T_MASK ^ 0x155ed805);
    c := SetH(42, trace, c, d, a, b, x, 3, 16, T_MASK ^ 0x2b10cf7a);
    b := SetH(43, trace, b, c, d, a, x, 6, 23, 0x04881d05);
    a := SetH(44, trace, a, b, c, d, x, 9, 4, T_MASK ^ 0x262b2fc6);
    d := SetH(45, trace, d, a, b, c, x, 12, 11, T_MASK ^ 0x1924661a);
    c := SetH(46, trace, c, d, a, b, x, 15, 16, 0x1fa27cf8);
    b := SetH(47, trace, b, c, d, a, x, 2, 23, T_MASK ^ 0x3b53a99a);
    t := Regs(a, b, c, d);
  }

  // The sixteen operations of round 4 (md5.c).
  method Round4(ghost trace: seq<Regs>, s: Regs, x: seq<Word>) returns (t: Regs)
    requires Runs(trace, x) && s == trace[48]
    ensures t == trace[64]
  {
    var a, b, c, d := s.a, s.b, s.c, s.d;
    a := SetI(48, trace, a, b, c, d, x, 0, 6, T_MASK ^ 0x0bd6ddbb);
    d := SetI(49, trace, d, a, b, c, x, 7, 10, 0x432aff97);
    c := SetI(50, trace, c, d, a, b, x, 14, 15, T_MASK ^ 0x546bdc58);
    b := SetI(51, trace, b, c, d, a, x, 5, 21, T_MASK ^ 0x036c5fc6);
    a := SetI(52, trace, a, b, c, d, x, 12, 6, 0x655b59c3);
    d := SetI(53, trace, d, a, b, c, x, 3, 10, T_MASK ^ 0x70f3336d);
    c := SetI(54, trace, c, d, a, b, x, 10, 15, T_MASK ^ 0x00100b82);
    b := SetI(55, trace, b, c, d, a, x, 1, 21, T_MASK ^ 0x7a7ba22e);
    assert Regs(a, b, c, d) == trace[56];
    a := SetI(56, trace, a, b, c, d, x, 8, 6, 0x6fa87e4f);
    d := SetI(57, trace, d, a, b, c, x, 15, 10, T_MASK ^ 0x01d3191f);
    c := SetI(58, trace, c, d, a, b, x, 6, 15, T_MASK ^ 0x5cfebceb);
    b := SetI(59, trace, b, c, d, a, x, 13, 21, 0x4e0811a1);
    a := SetI(60, trace, a, b, c, d, x, 4, 6, T_MASK ^ 0x08ac817d);
    d := SetI(61, trace, d, a, b, c, x, 11, 10, T_MASK ^ 0x42c50dca);
    c := SetI(62, trace, c, d, a, b, x, 2, 15, 0x2ad7d2bb);
    b := SetI(63, trace, b, c, d, a, x, 9, 21, T_MASK ^ 0x14792c6e);
    t := Regs(a, b, c, d);
  }

  lemma {:induction false} RoundsRun(r: Regs, x: seq<Word>)
    requires |x| == 16
    ensures Runs(seq(65, n requires 0 <= n < 65 => Rounds(n, r, x)), x)
  {
    forall i {:trigger Rounds(i, r, x)} | 0 <= i < 64
      ensures Rounds(i + 1, r, x) == Operation(i, Rounds(i, r, x), x)
    {
      assert Rounds(i + 1, r, x) == After(i, r, x);
    }
  }

  method Process(r: Regs, data: Block) returns (t: Regs)
    ensures t == Compress(r, data)
  {
    var x := Words(data);
    ghost var trace := seq(65, n requires 0 <= n < 65 => Rounds(n, r, x));
    RoundsRun(r, x);
    var s := Round1(trace, r, x);
    s := Round2(trace, s, x);
    s := Round3(trace, s, x);
    s := Round4(trace, s, x);
    t := Regs(Add(r.a, s.a), Add(r.b, s.b), Add(r.c, s.c), Add(r.d, s.d));
  }

  // ---------------------------------------------------------------------------
  // md5_init, md5_append, md5_finish
  // ---------------------------------------------------------------------------

  // The two-word counter after adding n bytes to a message of total bytes.
  lemma {:induction false} CountCarries(total: nat, n: nat, low: Count, high: Count, low': Count, high': Count)
    requires n <= INT_MAX
    requires low + TWO_32 * high == BitLength(total)
    requires low' == (low + (8 * n) % TWO_32) % TWO_32
    requires high' == (high + n / 0x2000_0000 + (if low' < (8 * n) % TWO_32 then 1 else 0)) % TWO_32
    ensures low' + TWO_32 * high' == BitLength(total + n)
  {
    var bits := (8 * n) % TWO_32;
    assert 8 * n == bits + TWO_32 * (n / 0x2000_0000);
    var carry := if low' < bits then 1 else 0;
    assert low + bits == low' + TWO_32 * carry;
    var q := (8 * total) / TWO_64;
    var h := high + n / 0x2000_0000 + carry;
    assert 8 * (total + n) == low' + TWO_32 * h + TWO_64 * q;
    assert h == high' + TWO_32 * (h / TWO_32);
    ModUnique(8 * (total + n), TWO_64, q + h / TWO_32, low' + TWO_32 * high');
  }

  lemma {:induction false} ModUnique(x: int, m: int, q: int, r: int)
    requires m == TWO_64 && 0 <= r < m && x == m * q + r
    ensures x % m == r
  {
  }

  // The offset read off the low word is the length of the pending tail.
  lemma {:induction false} CountOffset(total: nat, low: Count, high: Count)
    requires low + TWO_32 * high == BitLength(total)
    ensures (low / 8) % 64 == total % 64
    ensures ((55 - low / 8) % TWO_32) % 64 == Zeros(total)
  {
    var q := (8 * total) / TWO_64;
    assert 8 * total == low + TWO_32 * high + TWO_64 * q;
    OffsetModulo(total, low / 8, 0x80_0000 * high + 0x80_0000_0000_0000 * q);
  }

  lemma {:induction false} OffsetModulo(total: nat, bytes: nat, k: int)
    requires total == bytes + 64 * k && bytes < 0x2000_0000
    ensures bytes % 64 == total % 64
    ensures ((55 - bytes) % TWO_32) % 64 == Zeros(total)
  {
    assert (55 - bytes) % TWO_32 == 55 - bytes + (if bytes <= 55 then 0 else TWO_32);
    assert 55 - bytes == 55 - total + 64 * k;
    SameModulo(total, bytes, k);
    SameModulo(55 - bytes, 55 - total, k);
    if 55 < bytes {
      SameModulo(55 - bytes + TWO_32, 55 - bytes, 0x400_0000);
    }
  }

  lemma {:induction false} SameModulo(a: int, b: int, k: int)
    requires a == b + 64 * k
    ensures a % 64 == b % 64
  {
  }

  class Md5State {
    var count0: Count
    var count1: Count
    var abcd: Regs
    const buf: array<Byte>
    // Every byte appended since initialisation.
    ghost var fed: seq<Byte>

    // The registers are the fold over the whole blocks; the rest waits in the buffer.
    ghost predicate Valid()
      reads this, buf
    {
      && buf.Length == 64
      && count0 + TWO_32 * count1 == BitLength(|fed|)
      && abcd == Fold(INITIAL, Whole(fed))
      && buf[..|fed| % 64] == Tail(fed)
    }

    constructor ()
      ensures Valid() && fresh(buf) && fed == []
    {
      count0, count1 := 0, 0;
      abcd := Regs(0x67452301, T_MASK ^ 0x10325476, T_MASK ^ 0x67452301, 0x10325476);
      buf := new Byte[64];
      fed := [];
    }

    // memcpy(buf + offset, data, |data|)
    method Copy(offset: nat, data: seq<Byte>)
      requires offset + |data| <= buf.Length
      modifies buf
      ensures buf[..] == old(buf[..offset]) + data + old(buf[offset + |data|..])
    {
      for i := 0 to |data|
        invariant buf[..] == old(buf[..offset]) + data[..i] + old(buf[offset + i..])
      {
        buf[offset + i] := data[i];
      }
    }

    // Update the message length.
    method AddLength(nbytes: int)
      requires 0 < nbytes <= INT_MAX
      requires count0 + TWO_32 * count1 == BitLength(|fed|)
      modifies `count0, `count1
      ensures count0 + TWO_32 * count1 == BitLength(|fed| + nbytes)
    {
      ghost var low, high := count0, count1;
      var nbits := (8 * nbytes) % TWO_32;
      count1 := (count1 + nbytes / 0x2000_0000) % TWO_32;
      count0 := (count0 + nbits) % TWO_32;
      if count0 < nbits {
        count1 := (count1 + 1) % TWO_32;
      }
      CountCarries(|fed|, nbytes, low, high, count0, count1);
    }

    method ProcessNext(ghost msg: seq<Byte>, block: Block)
      requires |msg| % 64 == 0 && abcd == Fold(INITIAL, msg)
      modifies `abcd
      ensures abcd == Fold(INITIAL, msg + block)
    {
      abcd := Process(abcd, block);
      FoldSnoc(INITIAL, msg, block);
    }

    // Process an initial partial block; p is the number of bytes consumed, -1 when the block stays partial.
    method FillPartial(ghost done: seq<Byte>, data: seq<Byte>, offset: nat) returns (p: int)
      requires buf.Length == 64 && 0 < offset == |done| % 64 && 0 < |data|
      requires abcd == Fold(INITIAL, Whole(done)) && buf[..offset] == Tail(done)
      modifies `abcd, buf
      ensures -1 <= p <= |data|
      ensures p == -1 ==> abcd == Fold(INITIAL, Whole(done + data)) && buf[..|done + data| % 64] == Tail(done + data)
      ensures p != -1 ==> |done + data[..p]| % 64 == 0 && abcd == Fold(INITIAL, done + data[..p])
    {
      var copy := if offset + |data| > 64 then 64 - offset else |data|;
      Copy(offset, data[..copy]);
      if offset + copy < 64 {
        SameBlock(done, data);
        return -1;
      }
      p := copy;
      CompletesBlock(done, data[..p], buf[..]);
      ProcessNext(Whole(done), buf[..]);
    }

    // Process full blocks; p is the number of bytes consumed.
    method FullBlocks(ghost done: seq<Byte>, data: seq<Byte>) returns (p: nat)
      requires |done| % 64 == 0 && abcd == Fold(INITIAL, done)
      modifies `abcd
      ensures p <= |data| < p + 64 && |done + data[..p]| % 64 == 0
      ensures abcd == Fold(INITIAL, done + data[..p])
    {
      p := 0;
      ghost var msg := done;
      while |data| - p >= 64
        invariant 0 <= p <= |data|
        invariant msg == done + data[..p] && |msg| % 64 == 0
        invariant abcd == Fold(INITIAL, msg)
      {
        ProcessNext(msg, data[p..p + 64]);
        msg := msg + data[p..p + 64];
        p := p + 64;
      }
    }

    // Keep a final partial block.
    method KeepTail(ghost done: seq<Byte>, data: seq<Byte>)
      requires buf.Length == 64 && |done| % 64 == 0 && |data| < 64
      modifies buf
      ensures Whole(done + data) == done
      ensures buf[..|done + data| % 64] == Tail(done + data)
    {
      if data != [] {
        Copy(0, data);
      }
      SplitAt(done, data);
    }

    // Process partial, full and final partial blocks.
    method Absorb(ghost done: seq<Byte>, data: seq<Byte>, offset: nat)
      requires buf.Length == 64 && offset == |done| % 64 && 0 < |data|
      requires abcd == Fold(INITIAL, Whole(done)) && buf[..offset] == Tail(done)
      modifies `abcd, buf
      ensures abcd == Fold(INITIAL, Whole(done + data)) && buf[..|done + data| % 64] == Tail(done + data)
    {
      var p := 0;
      assert done + data[..0] == done;
      if offset != 0 {
        p := FillPartial(done, data, offset);
        if p == -1 {
          return;
        }
      }
      var q := FullBlocks(done + data[..p], data[p..]);
      Pieces(done, data, p, q);
      KeepTail(done + data[..p + q], data[p + q..]);
    }

    static lemma {:induction false} Pieces(done: seq<Byte>, data: seq<Byte>, p: nat, q: nat)
      requires p + q <= |data|
      ensures done + data[..p] + data[p..][..q] == done + data[..p + q]
      ensures done + data == done + data[..p + q] + data[p + q..]
    {
    }

    method Append(data: seq<Byte>, nbytes: int)
      requires Valid()
      requires nbytes <= |data| && nbytes <= INT_MAX - 63
      modifies this, buf
      ensures Valid()
      ensures fed == old(fed) + (if nbytes <= 0 then [] else data[..nbytes])
    {
      var offset := (count0 / 8) % 64;
      if nbytes <= 0 {
        return;
      }
      CountOffset(|fed|, count0, count1);
      AddLength(nbytes);
      Absorb(fed, data[..nbytes], offset);
      fed := fed + data[..nbytes];
    }

    // The length before padding.
    method SavedLength() returns (data: seq<Byte>)
      requires count0 + TWO_32 * count1 == BitLength(|fed|)
      ensures data == LengthBytes(BitLength(|fed|))
    {
      data := [];
      for i := 0 to 8
        invariant |data| == i
        invariant forall k :: 0 <= k < i ==> data[k] == ByteOf(Digit(BitLength(|fed|), k))
      {
        TwoWords(count0, count1, i);
        data := data + [ByteOf(Digit(if i < 4 then count0 else count1, i % 4))];
      }
    }

    method Finish() returns (digest: seq<Byte>)
      requires Valid()
      modifies this, buf
      ensures digest == Digest(old(fed))
      ensures Valid() && Tail(fed) == []
    {
      ghost var msg := fed;
      var data := SavedLength();
      CountOffset(|msg|, count0, count1);
      var pad: seq<Byte> := [0x80] + seq(63, _ => 0);
      var n := ((55 - count0 / 8) % TWO_32) % 64 + 1;
      assert pad[..n] == Padding(|msg|);
      Append(pad, n);
      Append(data, 8);
      assert data[..8] == data;
      assert fed == Padded(msg);
      SplitAt(fed, []);
      assert fed + [] == fed;
      digest := WordBytes(abcd.a) + WordBytes(abcd.b) + WordBytes(abcd.c) + WordBytes(abcd.d);
    }
  }

  // Appending fewer bytes than complete the pending block moves no block boundary.
  lemma {:induction false} SameBlock(msg: seq<Byte>, more: seq<Byte>)
    requires |msg| % 64 + |more| < 64
    ensures Whole(msg + more) == Whole(msg)
    ensures Tail(msg + more) == Tail(msg) + more
  {
    assert |msg + more| % 64 == |msg| % 64 + |more|;
  }

  // Appending exactly the missing bytes completes the pending block.
  lemma {:induction false} CompletesBlock(msg: seq<Byte>, more: seq<Byte>, block: Block)
    requires |msg| % 64 + |more| == 64
    requires block == Tail(msg) + more
    ensures |msg + more| % 64 == 0
    ensures msg + more == Whole(msg) + block
  {
  }

  lemma {:induction false} SplitAt(msg: seq<Byte>, more: seq<Byte>)
    requires |msg| % 64 == 0 && |more| < 64
    ensures Whole(msg + more) == msg && Tail(msg + more) == more
  {
  }

  function Flatten(chunks: seq<seq<Byte>>): seq<Byte> {
    if chunks == [] then [] else Flatten(chunks[..|chunks| - 1]) + chunks[|chunks| - 1]
  }

  // md5_init, any sequence of md5_append calls, md5_finish.
  method HashChunks(chunks: seq<seq<Byte>>) returns (digest: seq<Byte>)
    requires forall k :: 0 <= k < |chunks| ==> |chunks[k]| <= INT_MAX - 63
    ensures digest == Digest(Flatten(chunks))
  {
    var st := new Md5State();
    for i := 0 to |chunks|
      invariant st.Valid() && fresh(st) && fresh(st.buf)
      invariant st.fed == Flatten(chunks[..i])
    {
      st.Append(chunks[i], |chunks[i]|);
      assert chunks[..i + 1][..i] == chunks[..i];
    }
    assert chunks[..|chunks|] == chunks;
    digest := st.Finish();
  }

  // ---------------------------------------------------------------------------
  // A known digest (section A.5 of RFC 1321)
  // ---------------------------------------------------------------------------

  const A_TO_M: seq<Byte> := [0x61, 0x62, 0x63, 0x64, 0x65, 0x66, 0x67, 0x68, 0x69, 0x6a, 0x6b, 0x6c, 0x6d]
  const N_TO_Z: seq<Byte> := [0x6e, 0x6f, 0x70, 0x71, 0x72, 0x73, 0x74, 0x75, 0x76, 0x77, 0x78, 0x79, 0x7a]
  const ALPHABET: seq<Byte> := A_TO_M + N_TO_Z

  // Its block as words.
  ghost predicate AlphabetWords(x: seq<Word>) {
    && |x| == 16
    && x[0] == 0x64636261 && x[1] == 0x68676665 && x[2] == 0x6c6b6a69 && x[3] == 0x706f6e6d
    && x[4] == 0x74737271 && x[5] == 0x78777675 && x[6] == 0x00807a79 && x[7] == 0
    && x[8] == 0 && x[9] == 0 && x[10] == 0 && x[11] == 0
    && x[12] == 0 && x[13] == 0 && x[14] == 0x000000d0 && x[15] == 0
  }

  // An operation on known registers, with a known word of the block, and its shift and sine.
  lemma {:induction false} Advance(n: nat, trace: seq<Regs>, x: seq<Word>, a: Word, b: Word, c: Word, d: Word, m: Word,
                                   s: Word, ti: Word, a': Word)
    requires n < 64 && Runs(trace, x) && trace[n] == Regs(a, b, c, d)
    requires x[Index(n)] == m && s == Shift(n) && ti == Sine(n)
    requires a' == Add(RotateLeft(Add(Add(Add(a, Mix(n, Regs(a, b, c, d))), m), ti), s), b)
    ensures trace[n + 1] == Regs(d, a', b, c)
  {
    RotateMacro(Add(Add(Add(a, Mix(n, Regs(a, b, c, d))), m), ti), s);
    assert trace[n + 1] == Operation(n, trace[n], x);
  }

  lemma {:induction false} AlphabetRound1(trace: seq<Regs>, x: seq<Word>)
    requires Runs(trace, x) && AlphabetWords(x) && trace[0] == Regs(0x67452301, 0xefcdab89, 0x98badcfe, 0x10325476)
    ensures trace[16] == Regs(0x1754a316, 0x608d6b7e, 0x00df74d5, 0x85567d90)
  {
    Advance(0, trace, x, 0x67452301, 0xefcdab89, 0x98badcfe, 0x10325476, 0x64636261, 7, 0xd76aa478, 0xd6d117a6);
    Advance(1, trace, x, 0x10325476, 0xd6d117a6, 0xefcdab89, 0x98badcfe, 0x68676665, 12, 0xe8c7b756, 0xaab1aaaa);
    Advance(2, trace, x, 0x98badcfe, 0xaab1aaaa, 0xd6d117a6, 0xefcdab89, 0x6c6b6a69, 17, 0x242070db, 0x227d8cf1);
    Advance(3, trace, x, 0xefcdab89, 0x227d8cf1, 0xaab1aaaa, 0xd6d117a6, 0x706f6e6d, 22, 0xc1bdceee, 0x4503b812);
    Advance(4, trace, x, 0xd6d117a6, 0x4503b812, 0x227d8cf1, 0xaab1aaaa, 0x74737271, 7, 0xf57c0faf, 0xfe15f787);
    Advance(5, trace, x, 0xaab1aaaa, 0xfe15f787, 0x4503b812, 0x227d8cf1, 0x78777675, 12, 0x4787c62a, 0xa811b278);
    Advance(6, trace, x, 0x227d8cf1, 0xa811b278, 0xfe15f787, 0x4503b812, 0x00807a79, 17, 0xa8304613, 0xb71122fc);
    Advance(7, trace, x, 0x4503b812, 0xb71122fc, 0xa811b278, 0xfe15f787, 0x00000000, 22, 0xfd469501, 0xda9bbb0d);
    Advance(8, trace, x, 0xfe15f787, 0xda9bbb0d, 0xb71122fc, 0xa811b278, 0x00000000, 7, 0x698098d8, 0xae752899);
    Advance(9, trace, x, 0xa811b278, 0xae752899, 0xda9bbb0d, 0xb71122fc, 0x00000000, 12, 0x8b44f7af, 0x2bbe757f);
    Advance(10, trace, x, 0xb71122fc, 0x2bbe757f, 0xae752899, 0xda9bbb0d, 0x00000000, 17, 0xffff5bb1, 0x7d4bd80b);
    Advance(11, trace, x, 0xda9bbb0d, 0x7d4bd80b, 0x2bbe757f, 0xae752899, 0x00000000, 22, 0x895cd7be, 0x56cfa5cb);
    Advance(12, trace, x, 0xae752899, 0x56cfa5cb, 0x7d4bd80b, 0x2bbe757f, 0x00000000, 7, 0x6b901122, 0x1754a316);
    Advance(13, trace, x, 0x2bbe757f, 0x1754a316, 0x56cfa5cb, 0x7d4bd80b, 0x00000000, 12, 0xfd987193, 0x85567d90);
    Advance(14, trace, x, 0x7d4bd80b, 0x85567d90, 0x1754a316, 0x56cfa5cb, 0x000000d0, 17, 0xa679438e, 0x00df74d5);
    Advance(15, trace, x, 0x56cfa5cb, 0x00df74d5, 0x85567d90, 0x1754a316, 0x00000000, 22, 0x49b40821, 0x608d6b7e);
  }

  lemma {:induction false} AlphabetRound2(trace: seq<Regs>, x: seq<Word>)
    requires Runs(trace, x) && AlphabetWords(x) && trace[16] == Regs(0x1754a316, 0x608d6b7e, 0x00df74d5, 0x85567d90)
    ensures trace[32] == Regs(0xf54d8710, 0xaeb35766, 0x2e69afc7, 0x927b72e2)
  {
    Advance(16, trace, x, 0x1754a316, 0x608d6b7e, 0x00df74d5, 0x85567d90, 0x68676665, 5, 0xf61e2562, 0x2d8071cc);
    Advance(17, trace, x, 0x85567d90, 0x2d8071cc, 0x608d6b7e, 0x00df74d5, 0x00807a79, 9, 0xc040b340, 0x5dcee119);
    Advance(18, trace, x, 0x00df74d5, 0x5dcee119, 0x2d8071cc, 0x608d6b7e, 0x00000000, 14, 0x265e5a51, 0xedfe7e4b);
    Advance(19, trace, x, 0x608d6b7e, 0xedfe7e4b, 0x5dcee119, 0x2d8071cc, 0x64636261, 20, 0xe9b6c7aa, 0x4c2145b3);
    Advance(20, trace, x, 0x2d8071cc, 0x4c2145b3, 0xedfe7e4b, 0x5dcee119, 0x78777675, 5, 0xd62f105d, 0x570c43e0);
    Advance(21, trace, x, 0x5dcee119, 0x570c43e0, 0x4c2145b3, 0xedfe7e4b, 0x00000000, 9, 0x02441453, 0x977efd2a);
    Advance(22, trace, x, 0xedfe7e4b, 0x977efd2a, 0x570c43e0, 0x4c2145b3, 0x00000000, 14, 0xd8a1e681, 0xc28ab49d);
    Advance(23, trace, x, 0x4c2145b3, 0xc28ab49d, 0x977efd2a, 0x570c43e0, 0x74737271, 20, 0xe7d3fbc8, 0xc9f162d4);
    Advance(24, trace, x, 0x570c43e0, 0xc9f162d4, 0xc28ab49d, 0x977efd2a, 0x00000000, 5, 0x21e1cde6, 0x25bfae3b);
    Advance(25, trace, x, 0x977efd2a, 0x25bfae3b, 0xc9f162d4, 0xc28ab49d, 0x000000d0, 9, 0xc33707d6, 0x89980104);
    Advance(26, trace, x, 0xc28ab49d, 0x89980104, 0x25bfae3b, 0xc9f162d4, 0x706f6e6d, 14, 0xf4d50d87, 0xf8c8365f);
    Advance(27, trace, x, 0xc9f162d4, 0xf8c8365f, 0x89980104, 0x25bfae3b, 0x00000000, 20, 0x455a14ed, 0xe6d3b398);
    Advance(28, trace, x, 0x25bfae3b, 0xe6d3b398, 0xf8c8365f, 0x89980104, 0x00000000, 5, 0xa9e3e905, 0xf54d8710);
    Advance(29, trace, x, 0x89980104, 0xf54d8710, 0xe6d3b398, 0xf8c8365f, 0x6c6b6a69, 9, 0xfcefa3f8, 0x927b72e2);
    Advance(30, trace, x, 0xf8c8365f, 0x927b72e2, 0xf54d8710, 0xe6d3b398, 0x00000000, 14, 0x676f02d9, 0x2e69afc7);
    Advance(31, trace, x, 0xe6d3b398, 0x2e69afc7, 0x927b72e2, 0xf54d8710, 0x00000000, 20, 0x8d2a4c8a, 0xaeb35766);
  }

  lemma {:induction false} AlphabetRound3(trace: seq<Regs>, x: seq<Word>)
    requires Runs(trace, x) && AlphabetWords(x) && trace[32] == Regs(0xf54d8710, 0xaeb35766, 0x2e69afc7, 0x927b72e2)
    ensures trace[48] == Regs(0xb5d41f9c, 0x71d10367, 0x703d54d8, 0xa04b4904)
  {
    Advance(32, trace, x, 0xf54d8710, 0xaeb35766, 0x2e69afc7, 0x927b72e2, 0x78777675, 4, 0xfffa3942, 0xb4bf680e);
    Advance(33, trace, x, 0x927b72e2, 0xb4bf680e, 0xaeb35766, 0x2e69afc7, 0x00000000, 11, 0x8771f681, 0x4c8ffa80);
    Advance(34, trace, x, 0x2e69afc7, 0x4c8ffa80, 0xb4bf680e, 0xaeb35766, 0x00000000, 16, 0x6d9d6122, 0x2361ed0a);
    Advance(35, trace, x, 0xaeb35766, 0x2361ed0a, 0x4c8ffa80, 0xb4bf680e, 0x000000d0, 23, 0xfde5380c, 0x06a5e211);
    Advance(36, trace, x, 0xb4bf680e, 0x06a5e211, 0x2361ed0a, 0x4c8ffa80, 0x68676665, 4, 0xa4beea44, 0xb9c0c733);
    Advance(37, trace, x, 0x4c8ffa80, 0xb9c0c733, 0x06a5e211, 0x2361ed0a, 0x74737271, 11, 0x4bdecfa9, 0xf1e6dc7a);
    Advance(38, trace, x, 0x2361ed0a, 0xf1e6dc7a, 0xb9c0c733, 0x06a5e211, 0x00000000, 16, 0xf6bb4b60, 0x23a9451b);
    Advance(39, trace, x, 0x06a5e211, 0x23a9451b, 0xf1e6dc7a, 0xb9c0c733, 0x00000000, 23, 0xbebfbc70, 0x8d41bf99);
    Advance(40, trace, x, 0xb9c0c733, 0x8d41bf99, 0x23a9451b, 0xf1e6dc7a, 0x00000000, 4, 0x289b7ec6, 0xa3e88ead);
    Advance(41, trace, x, 0xf1e6dc7a, 0xa3e88ead, 0x8d41bf99, 0x23a9451b, 0x64636261, 11, 0xeaa127fa, 0x02c0b11c);
    Advance(42, trace, x, 0x23a9451b, 0x02c0b11c, 0xa3e88ead, 0x8d41bf99, 0x706f6e6d, 16, 0xd4ef3085, 0x66f6468d);
    Advance(43, trace, x, 0x8d41bf99, 0x66f6468d, 0x02c0b11c, 0xa3e88ead, 0x00807a79, 23, 0x04881d05, 0x90a35af5);
    Advance(44, trace, x, 0xa3e88ead, 0x90a35af5, 0x66f6468d, 0x02c0b11c, 0x00000000, 4, 0xd9d4d039, 0xb5d41f9c);
    Advance(45, trace, x, 0x02c0b11c, 0xb5d41f9c, 0x90a35af5, 0x66f6468d, 0x00000000, 11, 0xe6db99e5, 0xa04b4904);
    Advance(46, trace, x, 0x66f6468d, 0xa04b4904, 0xb5d41f9c, 0x90a35af5, 0x00000000, 16, 0x1fa27cf8, 0x703d54d8);
    Advance(47, trace, x, 0x90a35af5, 0x703d54d8, 0xa04b4904, 0xb5d41f9c, 0x6c6b6a69, 23, 0xc4ac5665, 0x71d10367);
  }

  lemma {:induction false} AlphabetRound4(trace: seq<Regs>, x: seq<Word>)
    requires Runs(trace, x) && AlphabetWords(x) && trace[48] == Regs(0xb5d41f9c, 0x71d10367, 0x703d54d8, 0xa04b4904)
    ensures trace[64] == Regs(0x708ed9c2, 0x1116e6d8, 0xd38f1e7f, 0x2baf1354)
  {
    Advance(48, trace, x, 0xb5d41f9c, 0x71d10367, 0x703d54d8, 0xa04b4904, 0x64636261, 6, 0xf4292244, 0xfc32dd6e);
    Advance(49, trace, x, 0xa04b4904, 0xfc32dd6e, 0x71d10367, 0x703d54d8, 0x00000000, 10, 0x432aff97, 0x65456b34);
    Advance(50, trace, x, 0x703d54d8, 0x65456b34, 0xfc32dd6e, 0x71d10367, 0x000000d0, 15, 0xab9423a7, 0xb35602cb);
    Advance(51, trace, x, 0x71d10367, 0xb35602cb, 0x65456b34, 0xfc32dd6e, 0x78777675, 21, 0xfc93a039, 0x33edb197);
    Advance(52, trace, x, 0xfc32dd6e, 0x33edb197, 0xb35602cb, 0x65456b34, 0x00000000, 6, 0x655b59c3, 0xc1e942f1);
    Advance(53, trace, x, 0x65456b34, 0xc1e942f1, 0x33edb197, 0xb35602cb, 0x706f6e6d, 10, 0x8f0ccc92, 0xd9bb987c);
    Advance(54, trace, x, 0xb35602cb, 0xd9bb987c, 0xc1e942f1, 0x33edb197, 0x00000000, 15, 0xffeff47d, 0x23a68048);
    Advance(55, trace, x, 0x33edb197, 0x23a68048, 0xd9bb987c, 0xc1e942f1, 0x68676665, 21, 0x85845dd1, 0x83877d1b);
    Advance(56, trace, x, 0xc1e942f1, 0x83877d1b, 0x23a68048, 0xd9bb987c, 0x00000000, 6, 0x6fa87e4f, 0x0077c208);
    Advance(57, trace, x, 0xd9bb987c, 0x0077c208, 0x83877d1b, 0x23a68048, 0x00000000, 10, 0xfe2ce6e0, 0x847fc2e7);
    Advance(58, trace, x, 0x23a68048, 0x847fc2e7, 0x0077c208, 0x83877d1b, 0x00807a79, 15, 0xa3014314, 0xa3e2247f);
    Advance(59, trace, x, 0x83877d1b, 0xa3e2247f, 0x847fc2e7, 0x0077c208, 0x00000000, 21, 0x4e0811a1, 0x5e6bc930);
    Advance(60, trace, x, 0x0077c208, 0x5e6bc930, 0xa3e2247f, 0x847fc2e7, 0x74737271, 6, 0xf7537e82, 0x708ed9c2);
    Advance(61, trace, x, 0x847fc2e7, 0x708ed9c2, 0x5e6bc930, 0xa3e2247f, 0x00000000, 10, 0xbd3af235, 0x2baf1354);
    Advance(62, trace, x, 0xa3e2247f, 0x2baf1354, 0x708ed9c2, 0x5e6bc930, 0x6c6b6a69, 15, 0x2ad7d2bb, 0xd38f1e7f);
    Advance(63, trace, x, 0x5e6bc930, 0xd38f1e7f, 0x2baf1354, 0x708ed9c2, 0x00000000, 21, 0xeb86d391, 0x1116e6d8);
  }

  // The digest of the alphabet.
  lemma {:induction false} AlphabetDigest()
    ensures Digest(ALPHABET)
         == [0xc3, 0xfc, 0xd3, 0xd7, 0x61, 0x92, 0xe4, 0x00,
             0x7d, 0xfb, 0x49, 0x6c, 0xca, 0x67, 0xe1, 0x3b]
  {
    var p := Padded(ALPHABET);
    AlphabetPadded();
    var x := Words(p);
    var trace := seq(65, n requires 0 <= n < 65 => Rounds(n, INITIAL, x));
    RoundsRun(INITIAL, x);
    AlphabetRound1(trace, x);
    AlphabetRound2(trace, x);
    AlphabetRound3(trace, x);
    AlphabetRound4(trace, x);
    OneBlock(p);
    AlphabetOutput(trace[4 * |x|]);
  }

  lemma {:induction false} AlphabetOutput(r: Regs)
    requires r == Regs(0x708ed9c2, 0x1116e6d8, 0xd38f1e7f, 0x2baf1354)
    ensures Output(AddRegs(INITIAL, r))
         == [0xc3, 0xfc, 0xd3, 0xd7, 0x61, 0x92, 0xe4, 0x00,
             0x7d, 0xfb, 0x49, 0x6c, 0xca, 0x67, 0xe1, 0x3b]
  {
  }

  lemma {:induction false} OneBlock(data: Block)
    ensures Fold(INITIAL, data) == Compress(INITIAL, data)
  {
    assert data[..|data| - 64] == [] && data[|data| - 64..] == data;
    assert Fold(INITIAL, data) == LastBlock(INITIAL, data);
    assert Fold(INITIAL, []) == INITIAL;
  }

  lemma {:induction false} AlphabetPadded()
    ensures |Padded(ALPHABET)| == 64 && AlphabetWords(Words(Padded(ALPHABET)))
  {
    var p := Padded(ALPHABET);
    AlphabetLength();
    assert |ALPHABET| == 26 && Zeros(26) == 29;
    assert |p| == 64 && p[..26] == ALPHABET && p[26] == 0x80 && p[56..] == LengthBytes(208);
    assert p[..13] == A_TO_M && p[13..26] == N_TO_Z;
    AToMOf(p);
    NToZOf(p);
    assert forall i :: 56 <= i < 64 ==> p[i] == p[56..][i - 56];
    assert forall i :: 27 <= i < 56 ==> p[i] == 0;
    AlphabetBlock(p);
  }

  ghost predicate AToM(p: Block) {
    && p[0] == 0x61 && p[1] == 0x62 && p[2] == 0x63 && p[3] == 0x64 && p[4] == 0x65 && p[5] == 0x66 && p[6] == 0x67
    && p[7] == 0x68 && p[8] == 0x69 && p[9] == 0x6a && p[10] == 0x6b && p[11] == 0x6c && p[12] == 0x6d
  }

  ghost predicate NToZ(p: Block) {
    && p[13] == 0x6e && p[14] == 0x6f && p[15] == 0x70 && p[16] == 0x71 && p[17] == 0x72 && p[18] == 0x73
    && p[19] == 0x74
    && p[20] == 0x75 && p[21] == 0x76 && p[22] == 0x77 && p[23] == 0x78 && p[24] == 0x79 && p[25] == 0x7a
  }

  lemma {:induction false} AToMOf(p: Block)
    requires p[..13] == A_TO_M
    ensures AToM(p)
  {
    assert forall i :: 0 <= i < 13 ==> p[i] == p[..13][i];
  }

  lemma {:induction false} NToZOf(p: Block)
    requires p[13..26] == N_TO_Z
    ensures NToZ(p)
  {
    assert forall i :: 13 <= i < 26 ==> p[i] == p[13..26][i - 13];
  }

  lemma {:induction false} AlphabetBlock(p: Block)
    requires AToM(p) && NToZ(p) && p[26] == 0x80 && p[56] == 0xd0
    requires forall i :: 27 <= i < 64 && i != 56 ==> p[i] == 0
    ensures AlphabetWords(Words(p))
  {
    WordIs(p, 0, 0x61, 0x62, 0x63, 0x64, 0x64636261);
    WordIs(p, 1, 0x65, 0x66, 0x67, 0x68, 0x68676665);
    WordIs(p, 2, 0x69, 0x6a, 0x6b, 0x6c, 0x6c6b6a69);
    WordIs(p, 3, 0x6d, 0x6e, 0x6f, 0x70, 0x706f6e6d);
    WordIs(p, 4, 0x71, 0x72, 0x73, 0x74, 0x74737271);
    WordIs(p, 5, 0x75, 0x76, 0x77, 0x78, 0x78777675);
    WordIs(p, 6, 0x79, 0x7a, 0x80, 0, 0x00807a79);
    forall k | 7 <= k < 16
      ensures Words(p)[k] == if k == 14 then 208 else 0
    {
      WordIs(p, k, if k == 14 then 0xd0 else 0, 0, 0, 0, if k == 14 then 208 else 0);
    }
  }

  lemma {:induction false} WordIs(p: Block, k: nat, b0: Byte, b1: Byte, b2: Byte, b3: Byte, w: Word)
    requires k < 16 && p[4 * k] == b0 && p[4 * k + 1] == b1 && p[4 * k + 2] == b2 && p[4 * k + 3] == b3
    requires w == (b0 as Word) | ((b1 as Word) << 8) | ((b2 as Word) << 16) | ((b3 as Word) << 24)
    ensures Words(p)[k] == w
  {
    assert p[4 * k..4 * k + 4] == [b0, b1, b2, b3];
  }

  lemma {:induction false} AlphabetLength()
    ensures BitLength(26) == 208 && LengthBytes(208) == [0xd0, 0, 0, 0, 0, 0, 0, 0]
  {
    assert ByteOf(208) == 0xd0 && ByteOf(0) == 0;
    forall k: nat | 1 <= k < 8
      ensures Digit(208, k) == 0
    {
      NoDigits(k - 1);
    }
    assert LengthBytes(208)[0] == ByteOf(Digit(208, 0));
  }

  lemma {:induction false} NoDigits(k: nat)
    ensures Digit(0, k) == 0
  {
    if k > 0 {
      NoDigits(k - 1);
    }
  }
}
