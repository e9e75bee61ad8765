/** The generator and the template filler of uuid4.c: the xorshift128+
    step over the two-word seed, and the loop that turns 16 bytes into
    the text of a version-4 UUID (RFC 4122, sections 4.1.1 and 4.4). */
module Uuid4 {
  import opened CTypes
  import Nutsbox

  type u64 = bv64

  // ---------------------------------------------------------------
  // xorshift128+
  // ---------------------------------------------------------------

  /** `s1 ^= s1 << 23`. */
  function Scramble(x: u64): u64
  {
    x ^ (x << 23)
  }

  /** Exclusive or, kept behind a function so that the solver cancels
      equal operands as terms. */
  function Xor(x: u64, y: u64): u64
  {
    x ^ y
  }

  function Sh18(t: u64): u64
  {
    t ^ (t >> 18)
  }

  function Sh5(s: u64): u64
  {
    s ^ (s >> 5)
  }

  /** The new `s[1]` from the scrambled old `s[0]` (`t`) and the old
      `s[1]` (`s0`), regrouped as `(t ^ (t >> 18)) ^ (s0 ^ (s0 >> 5))`. */
  function Mix(t: u64, s0: u64): u64
  {
    Xor(Sh18(t), Sh5(s0))
  }

  lemma MixClosed(t: u64, s0: u64)
    ensures (t ^ (t >> 18)) ^ (s0 ^ (s0 >> 5)) == t ^ s0 ^ (t >> 18) ^ (s0 >> 5)
  {
  }

  lemma Sh18Is(t: u64)
    ensures Sh18(t) == t ^ (t >> 18)
  {
  }

  lemma Sh5Is(s: u64)
    ensures Sh5(s) == s ^ (s >> 5)
  {
  }

  /** The regrouping is the expression uuid4.c:30 computes. Each wrapper
      is unfolded by a lemma of its own, which keeps the bit-vector
      problem small. */
  lemma MixIsSource(t: u64, s0: u64)
    ensures Mix(t, s0) == t ^ s0 ^ (t >> 18) ^ (s0 >> 5)
  {
    Sh18Is(t);
    Sh5Is(s0);
    MixClosed(t, s0);
  }

  /** The new `s[1]` after one step from the seed `(a, b)`; the new
      `s[0]` is `b`. */
  function Next(a: u64, b: u64): u64
  {
    Mix(Scramble(a), b)
  }

  /** Addition of two words, which wraps modulo 2^64. */
  function Plus(x: u64, y: u64): u64
  {
    x + y
  }

  /** The value one step from `(a, b)` returns: the new `s[1]` plus the
      old `s[1]`. */
  function Output(a: u64, b: u64): u64
  {
    Plus(Next(a, b), b)
  }

  /** `xorshift128plus` (uuid4.c:24-32) on the seed array: the seed
      moves from `(a, b)` to `(b, Next(a, b))` and the step returns
      `Output(a, b)`. */
  method Xorshift128Plus(s: array<u64>) returns (r: u64)
    requires s.Length == 2
    modifies s
    ensures s[0] == old(s[1]) && s[1] == Next(old(s[0]), old(s[1]))
    ensures r == Output(old(s[0]), old(s[1]))
  {
    var s1 := s[0];
    var s0 := s[1];
    s[0] := s0;
    s1 := Scramble(s1);
    s[1] := Mix(s1, s0);
    r := Plus(s[1], s0);
  }

  /** Undo `y = x ^ (x >> 18)`. */
  function UnSh18(y: u64): u64
  {
    y ^ (y >> 18) ^ (y >> 36) ^ (y >> 54)
  }

  /** Undo `y = x ^ (x << 23)`. */
  function UnScramble(y: u64): u64
  {
    y ^ (y << 23) ^ (y << 46)
  }

  /** The old `s[0]` recovered from the seed `(c0, c1)` after a step. */
  function Prev(c0: u64, c1: u64): u64
  {
    UnScramble(UnSh18(Xor(c1, Sh5(c0))))
  }

  lemma UnScrambleClosed(x: u64)
    ensures UnScramble(x ^ (x << 23)) == x
  {
  }

  lemma ScrambleClosed(y: u64)
    ensures Scramble(y ^ (y << 23) ^ (y << 46)) == y
  {
  }

  /** `UnScramble` and `Scramble` undo each other. */
  lemma ScrambleInverse(x: u64)
    ensures UnScramble(Scramble(x)) == x && Scramble(UnScramble(x)) == x
  {
    UnScrambleClosed(x);
    ScrambleClosed(x);
    assert Scramble(x) == x ^ (x << 23);
    assert UnScramble(x) == x ^ (x << 23) ^ (x << 46);
  }

  lemma UnSh18Closed(t: u64)
    ensures UnSh18(t ^ (t >> 18)) == t
  {
  }

  lemma Sh18Closed(y: u64)
    ensures Sh18(y ^ (y >> 18) ^ (y >> 36) ^ (y >> 54)) == y
  {
  }

  /** `UnSh18` and `Sh18` undo each other. */
  lemma Sh18Inverse(t: u64)
    ensures UnSh18(Sh18(t)) == t && Sh18(UnSh18(t)) == t
  {
    UnSh18Closed(t);
    Sh18Closed(t);
    assert Sh18(t) == t ^ (t >> 18);
    assert UnSh18(t) == t ^ (t >> 18) ^ (t >> 36) ^ (t >> 54);
  }

  /** XOR-ing twice with the same word restores the first. */
  lemma XorCancel(x: u64, y: u64)
    ensures Xor(Xor(x, y), y) == x
  {
  }

  /** One step is a bijection on the seed: `Prev` recovers the old
      `s[0]` from any seed after a step, and every seed `(c0, c1)` is
      reached from `(Prev(c0, c1), c0)`. */
  lemma StepBijective(a: u64, b: u64, c0: u64, c1: u64)
    ensures Prev(b, Next(a, b)) == a
    ensures Next(Prev(c0, c1), c0) == c1
  {
    ScrambleInverse(a);
    Sh18Inverse(Scramble(a));
    XorCancel(Sh18(Scramble(a)), Sh5(b));
    var u := UnSh18(Xor(c1, Sh5(c0)));
    ScrambleInverse(u);
    Sh18Inverse(Xor(c1, Sh5(c0)));
    XorCancel(c1, Sh5(c0));
  }

  /** No two seeds step to the same seed. */
  lemma StepInjective(a: u64, b: u64, a2: u64, b2: u64)
    requires b == b2 && Next(a, b) == Next(a2, b2)
    ensures a == a2
  {
    StepBijective(a, b, 0, 0);
    StepBijective(a2, b2, 0, 0);
  }

  // ---------------------------------------------------------------
  // the template
  // ---------------------------------------------------------------

  const TEMPLATE := "xxxxxxxx-xxxx-4xxx-yxxx-xxxxxxxxxxxx"
  const HEX := "0123456789abcdef"

  /** The dashes of the template. */
  predicate IsDash(p: int)
  {
    p == 8 || p == 13 || p == 18 || p == 23
  }

  /** The template: dashes at 8, 13, 18 and 23, the version digit '4' at
      14, the variant placeholder 'y' at 19, and 'x' elsewhere. */
  lemma TemplateChars()
    ensures |TEMPLATE| == 36
    ensures forall p :: 0 <= p < 36 ==>
      TEMPLATE[p] == (if IsDash(p) then '-' else if p == 14 then '4' else if p == 19 then 'y' else 'x')
  {
  }

  /** The nibble index `i` when the loop reaches position `p`: one per
      'x' or 'y' before `p`, so `p` less the dashes and the '4' before it. */
  function XCount(p: nat): nat
    requires p <= 36
  {
    p - ((if p > 8 then 1 else 0) + (if p > 13 then 1 else 0) + (if p > 14 then 1 else 0) +
         (if p > 18 then 1 else 0) + (if p > 23 then 1 else 0))
  }

  /** Nibble `i` of the bytes: `n = s.b[i >> 1]`, then `n >> 4` for odd
      `i` and `n & 0xf` for even `i`. */
  function Nibble(b: seq<byte>, i: nat): (n: int)
    requires i / 2 < |b|
    ensures 0 <= n < 16
  {
    if i % 2 == 1 then b[i / 2] / 16 else b[i / 2] % 16
  }

  /** The loop consumes 31 nibbles, and every nibble index it forms
      while it runs reads one of the 16 bytes. */
  lemma XCountBound()
    ensures XCount(36) == 31
    ensures forall p :: 0 <= p < 36 ==> XCount(p) / 2 <= 15
  {
  }

  /** The character the loop stores at position `p` (uuid4.c:85-89). */
  function UuidChar(b: seq<byte>, p: nat): char
    requires |b| == 16 && p < 36
  {
    TemplateChars();
    var n := Nibble(b, XCount(p));
    if TEMPLATE[p] == 'x' then HEX[n]
    else if TEMPLATE[p] == 'y' then HEX[n % 4 + 8]
    else TEMPLATE[p]
  }

  /** The 36 characters the template loop produces from 16 bytes. */
  function UuidOf(b: seq<byte>): (r: seq<char>)
    requires |b| == 16
    ensures |r| == 36
  {
    seq(36, p requires 0 <= p < 36 => UuidChar(b, p))
  }

  /** One position of a version-4 UUID: a dash exactly at 8, 13, 18 and
      23, the version digit '4' at 14, one of '8', '9', 'a', 'b' (the
      variant) at 19, and elsewhere the lowercase hex digit of nibble
      `XCount(p)`: the low nibble of byte k/2 for even k, the high one
      for odd k. */
  lemma UuidCharIs(b: seq<byte>, p: nat)
    requires |b| == 16 && p < 36
    ensures var c := UuidChar(b, p);
      var k := XCount(p);
      (c == '-' <==> IsDash(p)) &&
      (p == 14 ==> c == '4') &&
      (p == 19 ==> c in "89ab") &&
      (!IsDash(p) ==> c in HEX) &&
      (!IsDash(p) && p != 14 && p != 19 ==>
         c == HEX[if k % 2 == 0 then b[k / 2] % 16 else b[k / 2] / 16])
  {
    TemplateChars();
    var n := Nibble(b, XCount(p));
    assert HEX[n] in HEX && HEX[n % 4 + 8] in HEX;
    assert HEX[n % 4 + 8] in "89ab";
  }

  /** The whole text has the shape of a version-4 UUID. */
  lemma UuidShape(b: seq<byte>)
    requires |b| == 16
    ensures var u := UuidOf(b);
      (forall p :: 0 <= p < 36 ==> (u[p] == '-' <==> IsDash(p))) &&
      u[14] == '4' && u[19] in "89ab" &&
      (forall p :: 0 <= p < 36 && !IsDash(p) ==> u[p] in HEX)
  {
    forall p | 0 <= p < 36
      ensures UuidOf(b)[p] == '-' <==> IsDash(p)
      ensures !IsDash(p) ==> UuidOf(b)[p] in HEX
    {
      UuidCharIs(b, p);
    }
    UuidCharIs(b, 14);
    UuidCharIs(b, 19);
  }

  /** The template loop of `uuid4_generate` and `to_uuid4` (uuid4.c:80-92
      and 169-182): fill `dst` with the UUID text and its NUL. */
  method FillTemplate(b: seq<byte>, dst: array<char>)
    requires |b| == 16 && dst.Length >= 37
    modifies dst
    ensures dst[..36] == UuidOf(b) && dst[36] == Nutsbox.NUL
    ensures dst[37..] == old(dst[37..])
  {
    var p := 0;
    var i := 0;
    TemplateChars();
    XCountBound();
    while p < |TEMPLATE|
      invariant 0 <= p <= 36 && i == XCount(p)
      invariant dst[..p] == UuidOf(b)[..p]
      invariant dst[37..] == old(dst[37..])
    {
      var n := b[i / 2];
      n := if i % 2 == 1 then n / 16 else n % 16;
      var c := TEMPLATE[p];
      if c == 'x' {
        dst[p] := HEX[n];
        i := i + 1;
      } else if c == 'y' {
        dst[p] := HEX[n % 4 + 8];
        i := i + 1;
      } else {
        dst[p] := c;
      }
      p := p + 1;
    }
    dst[36] := Nutsbox.NUL;
  }

  /** The union's byte view of a word: its bytes, least significant
      first, on the little-endian machines the program is built for. */
  function WordBytes(w: u64): (r: seq<byte>)
    ensures |r| == 8
  {
    [Low8(w), Low8(w >> 8), Low8(w >> 16), Low8(w >> 24),
     Low8(w >> 32), Low8(w >> 40), Low8(w >> 48), Low8(w >> 56)]
  }

  /** The least significant byte of a word. */
  function Low8(w: u64): byte
  {
    (w & 0xFF) as int
  }

  /** The 16 bytes two steps from the seed `(a, b)` produce: the two
      returned words, byte by byte. */
  function SeedBytes(a: u64, b: u64): (r: seq<byte>)
    ensures |r| == 16
  {
    WordBytes(Output(a, b)) + WordBytes(Output(b, Next(a, b)))
  }

  /** `uuid4_generate` (uuid4.c:69-93): two steps of the generator give
      the 16 bytes, which fill the template; the seed is left two steps
      on. */
  method Generate(seed: array<u64>, dst: array<char>)
    requires seed.Length == 2 && dst.Length >= 37
    modifies seed, dst
    ensures var a, b := old(seed[0]), old(seed[1]);
      seed[0] == Next(a, b) && seed[1] == Next(b, Next(a, b)) &&
      dst[..36] == UuidOf(SeedBytes(a, b)) && dst[36] == Nutsbox.NUL
    ensures dst[37..] == old(dst[37..])
  {
    var w0 := Xorshift128Plus(seed);
    var w1 := Xorshift128Plus(seed);
    FillTemplate(WordBytes(w0) + WordBytes(w1), dst);
  }

  /** The md5 digest and `siphash24(message, key)`, which are outside
      the model. */
  type Digest = seq<byte> -> seq<byte>
  type SipHash = (seq<byte>, seq<byte>) -> u64

  /** The seed `to_uuid4` sets: the siphash of the input under its md5
      digest, and the siphash of the digest under itself. */
  function KeyedSeed(inp: seq<byte>, md5: Digest, sip: SipHash): (u64, u64)
  {
    var key := md5(inp);
    (sip(inp, key), sip(key, key))
  }

  /** `to_uuid4` (uuid4.c:144-183). The seed it leaves behind and the
      text it writes depend on `inp` alone, not on the seed before. */
  method ToUuid4(inp: seq<byte>, md5: Digest, sip: SipHash, seed: array<u64>, out: array<char>)
    requires seed.Length == 2 && out.Length >= 37
    modifies seed, out
    ensures var (a, b) := KeyedSeed(inp, md5, sip);
      out[..36] == UuidOf(SeedBytes(a, b)) && out[36] == Nutsbox.NUL &&
      seed[0] == Next(a, b) && seed[1] == Next(b, Next(a, b))
    ensures out[37..] == old(out[37..])
  {
    var key := md5(inp);
    seed[0] := sip(inp, key);
    seed[1] := sip(key, key);
    var w0 := Xorshift128Plus(seed);
    var w1 := Xorshift128Plus(seed);
    FillTemplate(WordBytes(w0) + WordBytes(w1), out);
  }
}
