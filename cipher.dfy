/** The key material and the chunk driver of cipher.c. The block cipher
    in CTR mode, the Fortuna generator and the digest are outside the
    model: the digest is the hex string `gethash` returns, the generator
    is the bytes it hands back, and CTR is XOR against a keystream that
    depends on the key, the IV and the absolute byte position. */
module Cipher {
  import opened CTypes
  import opened Nutsbox

  /** `MULTI2_KEYSIZE` (include/cip.h:19). */
  const MULTI2_KEYSIZE := 40
  /** `sizeof(inbuf)`: the chunk size of the read/transform/write loop. */
  const CHUNK := 512

  // ---------------------------------------------------------------
  // ctod, ctob, ctobx
  // ---------------------------------------------------------------

  /** `ctod` (cipher.c:243-249): the value of a hex digit of either case,
      and 0 for every other character. */
  function Ctod(c: char): (d: int)
    ensures 0 <= d < 16
  {
    if '0' <= c <= '9' then c as int - '0' as int
    else if 'a' <= c <= 'f' then c as int - 'a' as int + 10
    else if 'A' <= c <= 'F' then c as int - 'A' as int + 10
    else 0
  }

  /** `ctod` inverts both the lowercase digits `bytox` prints and the
      uppercase ones; it is 0 exactly on '0' and on non-hex characters. */
  lemma CtodInvertsHexDigit(n: int)
    requires 0 <= n < 16
    ensures Ctod(HexDigit(n)) == n
    ensures Ctod("0123456789ABCDEF"[n]) == n
  {
  }

  lemma CtodZero(c: char)
    ensures Ctod(c) == 0 <==> c == '0' || c !in "0123456789abcdefABCDEF"
  {
  }

  /** The character `ctob` reads at index k: past the end it is the
      terminating NUL. */
  function CharAt(chars: seq<char>, k: int): char
  {
    if 0 <= k < |chars| then chars[k] else NUL
  }

  /** What `ctob` stores: byte j is the high nibble from character 2j and
      the low nibble from character 2j+1. */
  function HexDecode(chars: seq<char>): (r: seq<byte>)
    ensures |r| == (|chars| + 1) / 2
  {
    seq((|chars| + 1) / 2, j requires 0 <= j < (|chars| + 1) / 2 =>
      (16 * Ctod(chars[2 * j]) + Ctod(CharAt(chars, 2 * j + 1))) as byte)
  }

  /** For a string of odd length the last low nibble comes from the NUL
      terminator, and so it is 0. */
  lemma HexDecodeOdd(chars: seq<char>)
    requires |chars| % 2 == 1
    ensures HexDecode(chars)[|chars| / 2] == 16 * Ctod(chars[|chars| - 1])
  {
  }

  /** `ctob` inverts `bytox`: hex-decoding the text of `b` gives back
      `b`, one byte per two characters. */
  lemma CtobInvertsBytox(b: seq<byte>)
    ensures HexDecode(ToHex(b)) == b
  {
    ToHexLength(b);
    forall j | 0 <= j < |b|
      ensures HexDecode(ToHex(b))[j] == b[j]
    {
      HexDecodeByte(b, ToHex(b), j);
    }
  }

  lemma HexDecodeByte(b: seq<byte>, t: seq<char>, j: nat)
    requires t == ToHex(b) && j < |b|
    ensures |HexDecode(t)| == |b| && HexDecode(t)[j] == b[j]
  {
    ToHexAt(b, j);
    var hi := b[j] / 16;
    var lo := b[j] % 16;
    CtodInvertsHexDigit(hi);
    CtodInvertsHexDigit(lo);
    assert t[2 * j] == HexDigit(hi) && CharAt(t, 2 * j + 1) == HexDigit(lo);
    assert HexDecode(t)[j] == 16 * hi + lo;
  }

  /** `ctob` (cipher.c:217-229): hex-decode `chars` into `bytes`, put a 0
      after the decoded bytes and return their count, half the length
      rounded up. The `unsigned char` arithmetic is taken modulo 256; it
      never wraps, since a nibble is below 16. */
  method Ctob(chars: seq<char>, bytes: array<byte>) returns (j: int)
    requires NoNul(chars) && (|chars| + 1) / 2 < bytes.Length
    modifies bytes
    ensures j == (|chars| + 1) / 2
    ensures bytes[..j] == HexDecode(chars) && bytes[j] == 0
    ensures bytes[j + 1..] == old(bytes[j + 1..])
  {
    j := 0;
    var i := 0;
    while i < |chars|
      invariant 0 <= j <= (|chars| + 1) / 2 && i == 2 * j
      invariant bytes[..j] == HexDecode(chars)[..j]
      invariant forall k :: j <= k < bytes.Length ==> bytes[k] == old(bytes[k])
    {
      var hi, lo := Ctod(chars[i]), Ctod(CharAt(chars, i + 1));
      var c := (hi * 16) % 256;
      c := (c + lo) % 256;
      NibblesFit(hi, lo);
      assert c == HexDecode(chars)[j];
      bytes[j] := c;
      assert bytes[..j + 1] == HexDecode(chars)[..j + 1];
      j := j + 1;
      i := i + 2;
    }
    bytes[j] := 0;
  }

  /** Two nibbles fit an `unsigned char`: the truncations of `ctob` never
      change the value. */
  lemma NibblesFit(hi: int, lo: int)
    requires 0 <= hi < 16 && 0 <= lo < 16
    ensures ((hi * 16) % 256 + lo) % 256 == 16 * hi + lo
  {
  }

  /** What `ctobx` stores: each character as an `unsigned char`. */
  function RawBytes(chars: seq<char>): (r: seq<byte>)
    ensures |r| == |chars|
  {
    seq(|chars|, k requires 0 <= k < |chars| => (chars[k] as int % 256) as byte)
  }

  /** An eight-bit character is stored as its own code, and the raw
      fallback of `krypt` never gives fewer key bytes than `ctob`. */
  lemma RawBytesIs(chars: seq<char>)
    ensures forall k :: 0 <= k < |chars| && chars[k] as int < 256 ==> RawBytes(chars)[k] == chars[k] as int
    ensures |HexDecode(chars)| <= |RawBytes(chars)|
  {
  }

  /** `ctobx` (cipher.c:232-239): copy the characters as bytes, put a 0
      after them and return their count. */
  method Ctobx(chars: seq<char>, bytes: array<byte>) returns (i: int)
    requires NoNul(chars) && |chars| < bytes.Length
    modifies bytes
    ensures i == |chars|
    ensures bytes[..i] == RawBytes(chars) && bytes[i] == 0
    ensures bytes[i + 1..] == old(bytes[i + 1..])
  {
    i := 0;
    while i < |chars|
      invariant 0 <= i <= |chars|
      invariant bytes[..i] == RawBytes(chars)[..i]
      invariant bytes[i..] == old(bytes[i..])
    {
      bytes[i] := chars[i] as int % 256;
      i := i + 1;
    }
    bytes[i] := 0;
  }

  // ---------------------------------------------------------------
  // the collaborators
  // ---------------------------------------------------------------

  /** The part of a registered cipher's descriptor that `krypt` uses;
      `keysize` is the cipher's key-size negotiation: the accepted size,
      possibly lowered, or None when it rejects the size. */
  datatype CipherDesc = CipherDesc(
    name: string, blockLength: nat, minKeyLength: nat, keysize: int -> Option<int>)

  /** The negotiation never raises a key size (it only rounds down to a
      size the cipher supports), so the key stays within what was
      written. */
  ghost predicate KeysizeShrinks(d: CipherDesc)
  {
    forall n :: d.keysize(n).Some? ==> 0 <= d.keysize(n).value <= n
  }

  /** `find_cipher`: the index of the first registered cipher of that name. */
  function FindCipher(ciphers: seq<CipherDesc>, name: string): (r: Option<nat>)
    ensures r.Some? ==> r.value < |ciphers| && ciphers[r.value].name == name
    ensures r.Some? ==> forall k :: 0 <= k < r.value ==> ciphers[k].name != name
    ensures r.None? ==> forall k :: 0 <= k < |ciphers| ==> ciphers[k].name != name
  {
    if ciphers == [] then None
    else if ciphers[0].name == name then Some(0)
    else match FindCipher(ciphers[1..], name)
      case None => None
      case Some(k) => Some(k + 1)
  }

  /** The CTR keystream byte for a key, an IV and an absolute position. */
  type Keystream = (seq<byte>, seq<byte>, nat) -> byte

  function Pow2(k: nat): nat
  {
    if k == 0 then 1 else 2 * Pow2(k - 1)
  }

  /** Bitwise exclusive or of two naturals, bit by bit from the lowest. */
  function XorBits(a: nat, b: nat): nat
    decreases a + b
  {
    if a == 0 && b == 0 then 0 else 2 * XorBits(a / 2, b / 2) + (a + b) % 2
  }

  lemma {:induction false} XorBitsBound(a: nat, b: nat, k: nat)
    requires a < Pow2(k) && b < Pow2(k)
    ensures XorBits(a, b) < Pow2(k)
    decreases k
  {
    if k > 0 && !(a == 0 && b == 0) {
      XorBitsBound(a / 2, b / 2, k - 1);
    }
  }

  /** The low bit of an exclusive or, and the rest of it. */
  lemma XorBitsHalves(a: nat, b: nat)
    ensures XorBits(a, b) / 2 == XorBits(a / 2, b / 2) && XorBits(a, b) % 2 == (a + b) % 2
  {
  }

  /** Exclusive or with the same value twice is the identity. */
  lemma {:induction false} XorBitsTwice(a: nat, b: nat)
    ensures XorBits(XorBits(a, b), b) == a
    decreases a + b
  {
    if a != 0 || b != 0 {
      var c := XorBits(a, b);
      XorBitsHalves(a, b);
      XorBitsTwice(a / 2, b / 2);
      XorBitsHalves(c, b);
      Parity(a, b, c);
    }
  }

  lemma Parity(a: nat, b: nat, c: nat)
    requires c % 2 == (a + b) % 2
    ensures (c + b) % 2 == a % 2
  {
  }

  /** The C `^` on two `unsigned char`s. */
  function Xor(a: byte, b: byte): byte
  {
    XorBitsBound(a, b, 8);
    XorBits(a, b)
  }

  lemma XorTwice(a: byte, b: byte)
    ensures Xor(Xor(a, b), b) == a
  {
    XorBitsTwice(a, b);
  }

  /** CTR over `d` from byte position `start` of the stream. */
  function XorStream(d: seq<byte>, ks: Keystream, key: seq<byte>, iv: seq<byte>, start: nat): (r: seq<byte>)
    ensures |r| == |d|
  {
    seq(|d|, k requires 0 <= k < |d| => Xor(d[k], ks(key, iv, start + k)))
  }

  /** Running the stream over two pieces is running it over both. */
  lemma XorStreamAppend(d1: seq<byte>, d2: seq<byte>, ks: Keystream, key: seq<byte>, iv: seq<byte>, start: nat)
    ensures XorStream(d1 + d2, ks, key, iv, start) ==
            XorStream(d1, ks, key, iv, start) + XorStream(d2, ks, key, iv, start + |d1|)
  {
  }

  /** CTR decryption inverts CTR encryption with the same key, IV and
      position. */
  lemma XorStreamTwice(d: seq<byte>, ks: Keystream, key: seq<byte>, iv: seq<byte>, start: nat)
    ensures XorStream(XorStream(d, ks, key, iv, start), ks, key, iv, start) == d
  {
    var e := XorStream(d, ks, key, iv, start);
    forall k | 0 <= k < |d|
      ensures XorStream(e, ks, key, iv, start)[k] == d[k]
    {
      XorTwice(d[k], ks(key, iv, start + k));
    }
  }

  /** The `symmetric_CTR` state: the key, the IV and the stream position. */
  class Ctr {
    const ks: Keystream
    const key: seq<byte>
    const iv: seq<byte>
    var pos: nat

    /** `ctr_start`: a fresh stream at position 0. */
    constructor (ks: Keystream, key: seq<byte>, iv: seq<byte>)
      ensures this.ks == ks && this.key == key && this.iv == iv && pos == 0
    {
      this.ks := ks;
      this.key := key;
      this.iv := iv;
      pos := 0;
    }

    /** `ctr_encrypt`/`ctr_decrypt`: transform the next bytes of the
        stream and advance the position. */
    method Crypt(inp: seq<byte>) returns (outp: seq<byte>)
      modifies this
      ensures outp == XorStream(inp, ks, key, iv, old(pos))
      ensures pos == old(pos) + |inp|
    {
      outp := XorStream(inp, ks, key, iv, pos);
      pos := pos + |inp|;
    }
  }

  // ---------------------------------------------------------------
  // krypt
  // ---------------------------------------------------------------

  /** The sizes `fread` returns to the do-while loop for `n` bytes of
      input: full chunks until a short one. */
  function ChunkSizes(n: nat): seq<nat>
    decreases n
  {
    if n < CHUNK then [n] else [CHUNK] + ChunkSizes(n - CHUNK)
  }

  function Sum(s: seq<nat>): nat
  {
    if s == [] then 0 else s[0] + Sum(s[1..])
  }

  /** Every chunk but the last is full, the last is short, the chunks add
      up to the input; so an input whose length is a multiple of 512 ends
      with a chunk of 0 bytes. */
  lemma {:induction false} ChunkSizesIs(n: nat)
    ensures var c := ChunkSizes(n);
      |c| == n / CHUNK + 1 && Sum(c) == n &&
      (forall k :: 0 <= k < |c| - 1 ==> c[k] == CHUNK) &&
      c[|c| - 1] == n % CHUNK < CHUNK &&
      (n % CHUNK == 0 ==> c[|c| - 1] == 0)
    decreases n
  {
    if n >= CHUNK {
      ChunkSizesIs(n - CHUNK);
      var c := ChunkSizes(n);
      assert c[1..] == ChunkSizes(n - CHUNK);
      forall k | 0 <= k < |c| - 1
        ensures c[k] == CHUNK
      {
        if k > 0 {
          assert c[k] == c[1..][k - 1];
        }
      }
    }
  }

  /** One pass of the loop below extends the output by the transformed
      chunk. */
  lemma WrittenStep(data: seq<byte>, fpos: nat, y: nat, written: seq<byte>, outbuf: seq<byte>,
                    ks: Keystream, key: seq<byte>, iv: seq<byte>, start: nat)
    requires fpos + y <= |data|
    requires written == XorStream(data[..fpos], ks, key, iv, start)
    requires outbuf == XorStream(data[fpos..fpos + y], ks, key, iv, start + fpos)
    ensures written + outbuf == XorStream(data[..fpos + y], ks, key, iv, start)
  {
    XorStreamAppend(data[..fpos], data[fpos..fpos + y], ks, key, iv, start);
    assert data[..fpos + y] == data[..fpos] + data[fpos..fpos + y];
  }

  /** One pass of the loop below keeps the chunks read so far a prefix
      of `ChunkSizes(n)`, and a short read completes them. */
  lemma ChunkStep(n: nat, f: nat, chunks: seq<nat>)
    requires f <= n && chunks + ChunkSizes(n - f) == ChunkSizes(n)
    ensures var y := Min(CHUNK, n - f);
      (y == CHUNK ==> (chunks + [y]) + ChunkSizes(n - (f + y)) == ChunkSizes(n)) &&
      (y != CHUNK ==> chunks + [y] == ChunkSizes(n) && f + y == n)
  {
    if n - f >= CHUNK {
      assert ChunkSizes(n - f) == [CHUNK] + ChunkSizes(n - f - CHUNK);
      assert (chunks + [CHUNK]) + ChunkSizes(n - f - CHUNK) == chunks + ChunkSizes(n - f);
    }
  }

  /** The do-while read/transform/write loop (cipher.c:95-104 and
      116-125): read up to 512 bytes, run them through the CTR state,
      write them, and go on while the read was full. */
  method ChunkLoop(ctr: Ctr, data: seq<byte>) returns (written: seq<byte>, ghost chunks: seq<nat>)
    modifies ctr
    ensures written == XorStream(data, ctr.ks, ctr.key, ctr.iv, old(ctr.pos))
    ensures ctr.pos == old(ctr.pos) + |data|
    ensures chunks == ChunkSizes(|data|)
  {
    ghost var start := ctr.pos;
    var fpos := 0;
    written := [];
    chunks := [];
    var y := CHUNK;
    assert [] + ChunkSizes(|data|) == ChunkSizes(|data|);
    while y == CHUNK
      invariant 0 <= fpos <= |data| && ctr.pos == start + fpos
      invariant written == XorStream(data[..fpos], ctr.ks, ctr.key, ctr.iv, start)
      invariant y == CHUNK ==> chunks + ChunkSizes(|data| - fpos) == ChunkSizes(|data|)
      invariant y != CHUNK ==> chunks == ChunkSizes(|data|) && fpos == |data|
      decreases |data| - fpos + y
    {
      y := Min(CHUNK, |data| - fpos);
      var inbuf := data[fpos..fpos + y];
      var outbuf := ctr.Crypt(inbuf);
      WrittenStep(data, fpos, y, written, outbuf, ctr.ks, ctr.key, ctr.iv, start);
      ChunkStep(|data|, fpos, chunks);
      written := written + outbuf;
      chunks := chunks + [y];
      fpos := fpos + y;
    }
    assert data[..fpos] == data;
  }

  /** The key choice of `krypt`: the key bytes, `outlen`, and the
      negotiated `key_size`. */
  datatype KeyChoice = KeyChoice(material: seq<byte>, outlen: nat, keySize: int)

  /** Key-size selection (cipher.c:59-75): the `ctob` bytes, or the raw
      `ctobx` bytes when there are fewer than the cipher's minimum; 40
      bytes for "multi2", which needs at least that many (error 136);
      then the cipher's negotiation, which may reject the size (error
      135). */
  function SelectKey(cipher: string, desc: CipherDesc, h: seq<char>): Result<KeyChoice, int>
  {
    var dec := HexDecode(h);
    var material := if |dec| < desc.minKeyLength then RawBytes(h) else dec;
    var outlen := |material|;
    if cipher == "multi2" && outlen < MULTI2_KEYSIZE then Err(136)
    else
      var size := if cipher == "multi2" then MULTI2_KEYSIZE else outlen;
      match desc.keysize(size)
      case None => Err(135)
      case Some(k) => Ok(KeyChoice(material, outlen, k))
  }

  /** The three steps of key-size selection, stated on the counts `ctob`
      and `ctobx` return: the fallback happens exactly when the hex count
      is below the minimum, the multi2 rule, and the negotiation. */
  lemma SelectKeySteps(cipher: string, desc: CipherDesc, h: seq<char>)
    ensures var hexCount := (|h| + 1) / 2;
      var outlen := if hexCount < desc.minKeyLength then |h| else hexCount;
      var size := if cipher == "multi2" then 40 else outlen;
      var r := SelectKey(cipher, desc, h);
      (r == Err(136) <==> cipher == "multi2" && outlen < 40) &&
      (r == Err(135) <==> !(cipher == "multi2" && outlen < 40) && desc.keysize(size).None?) &&
      (r.Ok? ==>
         r.value.outlen == outlen && Some(r.value.keySize) == desc.keysize(size) &&
         r.value.material == if hexCount < desc.minKeyLength then RawBytes(h) else HexDecode(h))
  {
  }

  /** A negotiated key never reaches past the written key bytes. */
  lemma SelectKeyFits(cipher: string, desc: CipherDesc, h: seq<char>)
    requires KeysizeShrinks(desc)
    ensures SelectKey(cipher, desc, h).Ok? ==>
      0 <= SelectKey(cipher, desc, h).value.keySize <= SelectKey(cipher, desc, h).value.outlen
  {
  }

  /** One call of `krypt`. `isFile` and `outName` decide only the message
      returned for a file-to-file run; `data` is the input (the file, or
      the characters of the `in` string); `digest` is the hex text
      `gethash` returns for the key. */
  datatype Request = Request(
    isFile: bool, isEncrypt: bool, inName: string, outName: Option<string>,
    cipher: string, digest: seq<char>)

  /** The collaborators: the registered ciphers, the CTR keystream and the
      bytes the generator returns for the IV. */
  datatype Env = Env(ciphers: seq<CipherDesc>, ks: Keystream, rand: seq<byte>)

  ghost predicate EnvValid(env: Env)
  {
    forall k :: 0 <= k < |env.ciphers| ==> KeysizeShrinks(env.ciphers[k])
  }

  /** What `krypt` writes to the output and the message it returns. */
  datatype KryptOut = KryptOut(written: seq<byte>, message: Option<string>)

  /** The message returned for a file-to-file run (cipher.c:106, 127). */
  function Message(req: Request): Option<string>
  {
    if req.isFile && req.outName.Some? then
      Some(req.inName + (if req.isEncrypt then " encrypted -> " else " decrypted -> ") + req.outName.value)
    else None
  }

  /** `krypt` (cipher.c:52-128) on the model's collaborators: an error
      code, or the IV followed by the encrypted input, or the input
      after its IV decrypted. */
  function KryptSpec(req: Request, data: seq<byte>, env: Env): Result<KryptOut, int>
    requires EnvValid(env)
  {
    match FindCipher(env.ciphers, req.cipher)
    case None => Err(134)
    case Some(idx) =>
      var desc := env.ciphers[idx];
      var ivsize := desc.blockLength;
      SelectKeyFits(req.cipher, desc, req.digest);
      match SelectKey(req.cipher, desc, req.digest)
      case Err(e) => Err(e)
      case Ok(kc) =>
        var key := kc.material[..kc.keySize];
        if req.isEncrypt then
          if |env.rand| != ivsize then Err(138)
          else Ok(KryptOut(env.rand + XorStream(data, env.ks, key, env.rand, 0), Message(req)))
        else if |data| < ivsize then Err(141)
        else Ok(KryptOut(XorStream(data[ivsize..], env.ks, key, data[..ivsize], 0), Message(req)))
  }

  /** `krypt` (cipher.c:52-128). The key buffer is sized for the digest
      rather than `MAXBLOCKSIZE`. */
  method Krypt(req: Request, data: seq<byte>, env: Env) returns (r: Result<KryptOut, int>, ghost chunks: seq<nat>)
    requires EnvValid(env) && NoNul(req.digest)
    ensures r == KryptSpec(req, data, env)
    ensures r.Ok? ==> chunks == ChunkSizes(if req.isEncrypt then |data| else |r.value.written|)
  {
    chunks := [];
    var idx := FindCipher(env.ciphers, req.cipher);
    if idx.None? {
      return Err(134), chunks;
    }
    var desc := env.ciphers[idx.value];
    var ivsize := desc.blockLength;
    var h := req.digest;
    var key := new byte[|h| + 2];
    var outlen := Ctob(h, key);
    if outlen < desc.minKeyLength {
      outlen := Ctobx(h, key);
    }
    var keySize;
    if req.cipher == "multi2" {
      if outlen < MULTI2_KEYSIZE {
        return Err(136), chunks;
      }
      keySize := MULTI2_KEYSIZE;
    } else {
      keySize := outlen;
    }
    var negotiated := desc.keysize(keySize);
    if negotiated.None? {
      return Err(135), chunks;
    }
    keySize := negotiated.value;
    SelectKeyFits(req.cipher, desc, h);
    var kc := SelectKey(req.cipher, desc, h).value;
    assert key[..keySize] == kc.material[..keySize] by {
      assert key[..keySize] == key[..outlen][..keySize];
    }
    if req.isEncrypt {
      var iv := env.rand;
      if |iv| != ivsize {
        return Err(138), chunks;
      }
      var ctr := new Ctr(env.ks, key[..keySize], iv);
      var out;
      out, chunks := ChunkLoop(ctr, data);
      r := Ok(KryptOut(iv + out, Message(req)));
    } else {
      if |data| < ivsize {
        return Err(141), chunks;
      }
      var iv := data[..ivsize];
      var ctr := new Ctr(env.ks, key[..keySize], iv);
      var out;
      out, chunks := ChunkLoop(ctr, data[ivsize..]);
      r := Ok(KryptOut(out, Message(req)));
    }
  }

  /** Encrypt writes the IV first and then one byte per input byte;
      decrypt fails exactly when the IV cannot be read, and otherwise
      writes the input's length less the IV. */
  lemma KryptLengths(req: Request, data: seq<byte>, env: Env)
    requires EnvValid(env)
    ensures var r := KryptSpec(req, data, env);
      var idx := FindCipher(env.ciphers, req.cipher);
      r.Ok? ==>
        idx.Some? &&
        var ivsize := env.ciphers[idx.value].blockLength;
        if req.isEncrypt then
          |r.value.written| == ivsize + |data| && r.value.written[..ivsize] == env.rand
        else
          |data| >= ivsize && |r.value.written| == |data| - ivsize
    ensures var r := KryptSpec(req, data, env);
      var idx := FindCipher(env.ciphers, req.cipher);
      !req.isEncrypt && idx.Some? && SelectKey(req.cipher, env.ciphers[idx.value], req.digest).Ok? ==>
        (r == Err(141) <==> |data| < env.ciphers[idx.value].blockLength)
  {
  }

  /** Decrypting what encrypt wrote, with the same cipher, digest and
      keystream, gives back the plaintext. */
  lemma KryptRoundTrip(enc: Request, data: seq<byte>, env: Env, dec: Request, env2: Env)
    requires EnvValid(env) && EnvValid(env2)
    requires enc.isEncrypt && !dec.isEncrypt
    requires dec.cipher == enc.cipher && dec.digest == enc.digest
    requires env2.ciphers == env.ciphers && env2.ks == env.ks
    requires KryptSpec(enc, data, env).Ok?
    ensures KryptSpec(dec, KryptSpec(enc, data, env).value.written, env2).Ok?
    ensures KryptSpec(dec, KryptSpec(enc, data, env).value.written, env2).value.written == data
  {
    var idx := FindCipher(env.ciphers, enc.cipher).value;
    var desc := env.ciphers[idx];
    var kc := SelectKey(enc.cipher, desc, enc.digest).value;
    var key := kc.material[..kc.keySize];
    var w := KryptSpec(enc, data, env).value.written;
    var ivsize := desc.blockLength;
    assert w == env.rand + XorStream(data, env.ks, key, env.rand, 0);
    assert w[..ivsize] == env.rand && w[ivsize..] == XorStream(data, env.ks, key, env.rand, 0);
    XorStreamTwice(data, env.ks, key, env.rand, 0);
  }
}
