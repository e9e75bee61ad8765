/** The base64 stream codec of b64.c: a 256-byte refill buffer over the
    input file, a writer that folds lines at 72 columns, and the encode
    and decode state machines (RFC 4648 section 4 alphabet, `=` padding).

    Files are modelled as byte sequences: the input file is the sequence
    `fread` would deliver, and the output file is a sequence that only
    grows. The platform line terminator `eol` is a parameter, and the
    process exit of the decoder becomes a `Status`. */
module B64 {
  import opened CTypes

  const LINELEN := 72
  const MAXINLINE := 256
  /** The value `inchar` and `insig` return at end of file. */
  const EOF := -1
  const PAD: byte := '=' as int
  const SPACE: byte := ' ' as int

  // ---------------------------------------------------------------
  // The alphabet tables
  // ---------------------------------------------------------------

  /** The encode table: 0-25 are 'A'-'Z', 26-51 'a'-'z', 52-61 '0'-'9',
      62 is '+' and 63 is '/'. */
  function EncodeChar(v: int): byte
    requires 0 <= v < 64
  {
    if v < 26 then 'A' as int + v
    else if v < 52 then 'a' as int + (v - 26)
    else if v < 62 then '0' as int + (v - 52)
    else if v == 62 then '+' as int
    else '/' as int
  }

  /** The decode table: the inverse of `EncodeChar` on the 64 alphabet
      characters, 0 for the pad character, and 0x80 ("invalid") for every
      other byte. */
  function DecodeValue(c: byte): byte
  {
    if 'A' as int <= c <= 'Z' as int then c - 'A' as int
    else if 'a' as int <= c <= 'z' as int then c - 'a' as int + 26
    else if '0' as int <= c <= '9' as int then c - '0' as int + 52
    else if c == '+' as int then 62
    else if c == '/' as int then 63
    else if c == PAD then 0
    else 0x80
  }

  /** A byte the decoder accepts: `dtable[c] & 0x80` is zero. */
  predicate IsValid(c: byte)
  {
    DecodeValue(c) < 0x80
  }

  lemma DecodeInvertsEncode(v: int)
    requires 0 <= v < 64
    ensures DecodeValue(EncodeChar(v)) == v
    ensures EncodeChar(v) != PAD && EncodeChar(v) > SPACE
  {
  }

  /** The decode table marks exactly the 64 alphabet characters and '='
      as valid, and on the alphabet it is the inverse of the encode table. */
  lemma EncodeInvertsDecode(c: byte)
    ensures IsValid(c) ==> DecodeValue(c) < 64
    ensures IsValid(c) && c != PAD ==> EncodeChar(DecodeValue(c)) == c
    ensures IsValid(c) <==> c == PAD || exists v :: 0 <= v < 64 && EncodeChar(v) == c
    ensures !IsValid(c) ==> DecodeValue(c) == 0x80
  {
    if IsValid(c) && c != PAD {
      assert EncodeChar(DecodeValue(c)) == c;
    }
  }

  /** The encode table as `encode` builds it (b64.c:141-156): entries
      0-63 hold the alphabet; the other entries are never read. */
  method BuildEncodeTable() returns (t: array<byte>)
    ensures fresh(t) && t.Length == MAXINLINE
    ensures forall v :: 0 <= v < 64 ==> t[v] == EncodeChar(v)
  {
    t := new byte[MAXINLINE];
    for i := 0 to 9
      invariant forall v :: 0 <= v < i ==> t[v] == 'A' as int + v
      invariant forall v :: 9 <= v < 9 + i ==> t[v] == 'J' as int + (v - 9)
      invariant forall v :: 26 <= v < 26 + i ==> t[v] == 'a' as int + (v - 26)
      invariant forall v :: 35 <= v < 35 + i ==> t[v] == 'j' as int + (v - 35)
    {
      t[i] := 'A' as int + i;
      t[i + 9] := 'J' as int + i;
      t[26 + i] := 'a' as int + i;
      t[26 + i + 9] := 'j' as int + i;
    }
    for i := 0 to 8
      invariant forall v :: 0 <= v < 18 ==> t[v] == 'A' as int + v
      invariant forall v :: 26 <= v < 44 ==> t[v] == 'a' as int + (v - 26)
      invariant forall v :: 18 <= v < 18 + i ==> t[v] == 'S' as int + (v - 18)
      invariant forall v :: 44 <= v < 44 + i ==> t[v] == 's' as int + (v - 44)
    {
      t[i + 18] := 'S' as int + i;
      t[26 + i + 18] := 's' as int + i;
    }
    for i := 0 to 10
      invariant forall v :: 0 <= v < 52 ==> t[v] == EncodeChar(v)
      invariant forall v :: 52 <= v < 52 + i ==> t[v] == '0' as int + (v - 52)
    {
      t[52 + i] := '0' as int + i;
    }
    t[62] := '+' as int;
    t[63] := '/' as int;
  }

  /** The decode table as `decode` builds it (b64.c:217-243). The source's
      first loop stops at index 254 and leaves entry 255 unwritten; the
      model writes 0x80 there, so byte 255 reads as invalid. */
  method BuildDecodeTable() returns (t: array<byte>)
    ensures fresh(t) && t.Length == MAXINLINE
    ensures forall c :: 0 <= c < MAXINLINE ==> t[c] == DecodeValue(c)
  {
    t := new byte[MAXINLINE];
    for i := 0 to 255
      invariant forall c :: 0 <= c < i ==> t[c] == 0x80
    {
      t[i] := 0x80;
    }
    t[255] := 0x80;
    for i := 'A' as int to 'I' as int + 1
      invariant forall c :: 0 <= c < MAXINLINE ==>
        t[c] == if 'A' as int <= c < i then DecodeValue(c) else 0x80
    {
      t[i] := 0 + (i - 'A' as int);
    }
    for i := 'J' as int to 'R' as int + 1
      invariant forall c :: 0 <= c < MAXINLINE ==>
        t[c] == if 'A' as int <= c < i then DecodeValue(c) else 0x80
    {
      t[i] := 9 + (i - 'J' as int);
    }
    for i := 'S' as int to 'Z' as int + 1
      invariant forall c :: 0 <= c < MAXINLINE ==>
        t[c] == if 'A' as int <= c < i then DecodeValue(c) else 0x80
    {
      t[i] := 18 + (i - 'S' as int);
    }
    for i := 'a' as int to 'i' as int + 1
      invariant forall c :: 0 <= c < MAXINLINE ==>
        t[c] == if 'A' as int <= c <= 'Z' as int || 'a' as int <= c < i then DecodeValue(c) else 0x80
    {
      t[i] := 26 + (i - 'a' as int);
    }
    for i := 'j' as int to 'r' as int + 1
      invariant forall c :: 0 <= c < MAXINLINE ==>
        t[c] == if 'A' as int <= c <= 'Z' as int || 'a' as int <= c < i then DecodeValue(c) else 0x80
    {
      t[i] := 35 + (i - 'j' as int);
    }
    for i := 's' as int to 'z' as int + 1
      invariant forall c :: 0 <= c < MAXINLINE ==>
        t[c] == if 'A' as int <= c <= 'Z' as int || 'a' as int <= c < i then DecodeValue(c) else 0x80
    {
      t[i] := 44 + (i - 's' as int);
    }
    for i := '0' as int to '9' as int + 1
      invariant forall c :: 0 <= c < MAXINLINE ==>
        t[c] == if 'A' as int <= c <= 'Z' as int || 'a' as int <= c <= 'z' as int || '0' as int <= c < i
                then DecodeValue(c) else 0x80
    {
      t[i] := 52 + (i - '0' as int);
    }
    t['+' as int] := 62;
    t['/' as int] := 63;
    t[PAD] := 0;
  }

  // ---------------------------------------------------------------
  // The buffered reader: inbuf, inchar, insig
  // ---------------------------------------------------------------

  /** The significant bytes of `s` (those above the space character), in
      order: what successive calls of `insig` deliver. */
  function Sig(s: seq<byte>): seq<byte>
  {
    if s == [] then [] else (if s[0] > SPACE then [s[0]] else []) + Sig(s[1..])
  }

  lemma SigCons(s: seq<byte>, k: nat)
    requires k < |s|
    ensures s[k] > SPACE ==> Sig(s[k..]) == [s[k]] + Sig(s[k + 1..])
    ensures s[k] <= SPACE ==> Sig(s[k..]) == Sig(s[k + 1..])
  {
    assert s[k..][1..] == s[k + 1..];
  }

  /** The `fread` into the refill buffer: `chunk` lands at its front. */
  method CopyChunk(buf: array<byte>, chunk: seq<byte>)
    requires |chunk| <= buf.Length
    modifies buf
    ensures buf[..|chunk|] == chunk
    ensures buf[|chunk|..] == old(buf[|chunk|..])
  {
    forall k | 0 <= k < |chunk| {
      buf[k] := chunk[k];
    }
  }

  /** The input side of one encode or decode call: the input file, the
      file position `fread` has reached, and the refill buffer with its
      length `iolen`, cursor `iocp` and sticky end-of-file flag `ateof`. */
  class Reader {
    const data: seq<byte>
    var fpos: nat
    const iobuf: array<byte>
    var iolen: int
    var iocp: int
    var ateof: bool

    /** The buffer holds the last chunk `fread` returned, and `ateof` is
        only set once the file is exhausted and the buffer drained. */
    ghost predicate Valid()
      reads this
    {
      iobuf.Length == MAXINLINE &&
      0 <= iolen <= MAXINLINE && 0 <= iocp <= MAXINLINE &&
      iolen <= fpos <= |data| &&
      (ateof ==> fpos == |data| && iocp >= iolen)
    }

    /** The buffer's contents agree with the file. */
    ghost predicate Buffered()
      reads this, iobuf
      requires Valid()
    {
      iobuf[..iolen] == data[fpos - iolen..fpos]
    }

    /** How many bytes of the file `inchar` has handed out so far. */
    ghost function Consumed(): (k: nat)
      reads this
      requires Valid()
      ensures k <= |data|
    {
      if iocp < iolen then fpos - (iolen - iocp) else fpos
    }

    /** The state `encode` and `decode` start from (b64.c:133-139,
        b64.c:211-215): cursor at MAXINLINE, nothing read, not at EOF. */
    constructor (data: seq<byte>)
      ensures Valid() && Buffered() && fresh(iobuf)
      ensures this.data == data && Consumed() == 0 && !ateof
    {
      this.data := data;
      fpos := 0;
      iobuf := new byte[MAXINLINE];
      iocp := MAXINLINE;
      iolen := 0;
      ateof := false;
    }

    /** `inbuf` (b64.c:68-87): refill the buffer with the next chunk of at
        most MAXINLINE bytes. Once `ateof` is set it returns false without
        reading; a read of zero bytes sets `ateof`. */
    method Inbuf() returns (ok: bool)
      requires Valid() && Buffered() && iocp >= iolen
      modifies this, iobuf
      ensures Valid() && Buffered()
      ensures ok <==> !old(ateof) && old(fpos) < |data|
      ensures ok ==> iocp == 0 && 1 <= iolen <= MAXINLINE &&
                     iolen == Min(MAXINLINE, |data| - old(fpos)) &&
                     fpos == old(fpos) + iolen && !ateof
      ensures !ok ==> ateof && fpos == old(fpos) && iolen == old(iolen) &&
                      iocp == old(iocp) && unchanged(iobuf)
      ensures old(ateof) ==> unchanged(this) && unchanged(iobuf)
    {
      if ateof {
        return false;
      }
      var fsize := Min(MAXINLINE, |data| - fpos);
      if fsize <= 0 {
        ateof := true;
        return false;
      }
      CopyChunk(iobuf, data[fpos..fpos + fsize]);
      fpos := fpos + fsize;
      iolen := fsize;
      iocp := 0;
      return true;
    }

    /** `inchar` (b64.c:104-113): the next input byte, refilling the
        buffer when it is exhausted, or EOF once the file is used up.
        Bytes come out in file order, each exactly once. */
    method Inchar() returns (c: int)
      requires Valid() && Buffered()
      modifies this, iobuf
      ensures Valid() && Buffered()
      ensures old(Consumed()) < |data| ==>
                c == data[old(Consumed())] && Consumed() == old(Consumed()) + 1
      ensures old(Consumed()) >= |data| ==> c == EOF && Consumed() == old(Consumed())
      ensures old(ateof) ==> c == EOF && unchanged(this) && unchanged(iobuf)
    {
      if iocp >= iolen {
        var ok := Inbuf();
        if !ok {
          return EOF;
        }
      }
      c := iobuf[iocp];
      iocp := iocp + 1;
    }

    /** `insig` (b64.c:192-202): the next byte above the space character,
        or EOF. Everything it skips is whitespace or a control byte. */
    method Insig() returns (c: int)
      requires Valid() && Buffered()
      modifies this, iobuf
      ensures Valid() && Buffered()
      ensures Consumed() >= old(Consumed())
      ensures c == EOF || SPACE < c < 256
      ensures c == EOF ==> Sig(data[old(Consumed())..]) == []
      ensures c != EOF ==>
                Consumed() > old(Consumed()) &&
                Sig(data[old(Consumed())..]) == [c] + Sig(data[Consumed()..])
    {
      ghost var start := Consumed();
      ghost var pos := start;
      while true
        invariant Valid() && Buffered()
        invariant pos == Consumed() && start <= pos <= |data|
        invariant Sig(data[start..]) == Sig(data[pos..])
        decreases |data| - pos
      {
        c := Inchar();
        if c == EOF {
          assert data[pos..] == [];
          return;
        }
        assert pos < |data| && c == data[pos];
        SigCons(data, pos);
        pos := pos + 1;
        if c > SPACE {
          return;
        }
      }
    }
  }

  // ---------------------------------------------------------------
  // The line-folding writer: ochar
  // ---------------------------------------------------------------

  /** The column after writing `cs` through `ochar` from column 0. */
  function Column(cs: seq<byte>): int
  {
    if cs == [] then 0
    else
      var p := Column(cs[..|cs| - 1]);
      if p >= LINELEN then 1 else p + 1
  }

  /** What `ochar` puts in the output when it is given `cs` one byte at a
      time from column 0: `eol` goes in front of a byte whenever the
      column has reached LINELEN. */
  function Wrapped(cs: seq<byte>, eol: seq<byte>): seq<byte>
  {
    if cs == [] then []
    else
      var p := cs[..|cs| - 1];
      Wrapped(p, eol) + (if Column(p) >= LINELEN then eol else []) + [cs[|cs| - 1]]
  }

  /** Reference layout: `cs` cut into lines of LINELEN bytes, the last one
      possibly shorter, joined by `eol`. */
  function Fold(cs: seq<byte>, eol: seq<byte>): seq<byte>
    decreases |cs|
  {
    if |cs| <= LINELEN then cs else cs[..LINELEN] + eol + Fold(cs[LINELEN..], eol)
  }

  /** The output side of `encode`: the output file and the column counter
      `linelength`. */
  class Writer {
    const eol: seq<byte>
    var out: seq<byte>
    var linelength: int

    ghost predicate Valid()
      reads this
    {
      0 <= linelength <= LINELEN
    }

    constructor (eol: seq<byte>)
      ensures Valid() && this.eol == eol && out == [] && linelength == 0
    {
      this.eol := eol;
      out := [];
      linelength := 0;
    }

    /** `ochar` (b64.c:116-124): write `eol` first when the line is full,
        then the byte. Afterwards 1 <= linelength <= LINELEN. */
    method Ochar(c: byte)
      requires Valid()
      modifies this
      ensures Valid() && 1 <= linelength
      ensures out == old(out) + (if old(linelength) >= LINELEN then eol else []) + [c]
      ensures linelength == if old(linelength) >= LINELEN then 1 else old(linelength) + 1
    {
      if linelength >= LINELEN {
        out := out + eol;
        linelength := 0;
      }
      out := out + [c];
      linelength := linelength + 1;
    }

    /** `fputs(s, fo)`: append `s` without touching the column counter. */
    method Puts(s: seq<byte>)
      modifies this
      ensures out == old(out) + s && linelength == old(linelength)
    {
      out := out + s;
    }
  }

  lemma ColumnIs(cs: seq<byte>)
    ensures Column(cs) == if cs == [] then 0 else (|cs| - 1) % LINELEN + 1
  {
    if cs != [] {
      ColumnIs(cs[..|cs| - 1]);
    }
  }

  lemma {:induction false} FoldSnoc(cs: seq<byte>, c: byte, eol: seq<byte>)
    ensures Fold(cs + [c], eol) ==
            Fold(cs, eol) + (if cs != [] && |cs| % LINELEN == 0 then eol else []) + [c]
    decreases |cs|, 1
  {
    if |cs| > LINELEN {
      FoldSnocLong(cs, c, eol);
    } else if |cs| == LINELEN {
      assert (cs + [c])[..LINELEN] == cs;
      assert (cs + [c])[LINELEN..] == [c];
    }
  }

  /** The step of `FoldSnoc` past the first line. */
  lemma {:induction false} FoldSnocLong(cs: seq<byte>, c: byte, eol: seq<byte>)
    requires |cs| > LINELEN
    ensures Fold(cs + [c], eol) ==
            Fold(cs, eol) + (if |cs| % LINELEN == 0 then eol else []) + [c]
    decreases |cs|, 0
  {
    var a, t := cs[..LINELEN], cs[LINELEN..];
    var x := if t != [] && |t| % LINELEN == 0 then eol else [];
    FoldSnoc(t, c, eol);
    assert (cs + [c])[..LINELEN] == a;
    assert (cs + [c])[LINELEN..] == t + [c];
    assert |t| % LINELEN == |cs| % LINELEN;
    calc {
      Fold(cs + [c], eol);
      a + eol + Fold(t + [c], eol);
      a + eol + (Fold(t, eol) + x + [c]);
      (a + eol + Fold(t, eol)) + x + [c];
      Fold(cs, eol) + x + [c];
    }
  }

  /** The writer's output is the reference layout: lines of LINELEN bytes
      joined by `eol`. */
  lemma {:induction false} WrappedIsFold(cs: seq<byte>, eol: seq<byte>)
    ensures Wrapped(cs, eol) == Fold(cs, eol)
    decreases |cs|
  {
    if cs != [] {
      var p := cs[..|cs| - 1];
      var c := cs[|cs| - 1];
      WrappedIsFold(p, eol);
      ColumnFull(p);
      FoldSnoc(p, c, eol);
      assert p + [c] == cs;
    }
  }

  /** The line is full after `cs` exactly when `cs` is a non-empty
      multiple of LINELEN long. */
  lemma ColumnFull(cs: seq<byte>)
    ensures Column(cs) >= LINELEN <==> cs != [] && |cs| % LINELEN == 0
  {
    ColumnIs(cs);
  }

  /** Every byte of `s` is above the space character. */
  predicate AllSig(s: seq<byte>)
  {
    forall k :: 0 <= k < |s| ==> s[k] > SPACE
  }

  /** No run of significant bytes in `s` is longer than `w`. */
  predicate RunsAtMost(s: seq<byte>, w: int)
  {
    forall i, j :: 0 <= i <= j <= |s| && AllSig(s[i..j]) ==> j - i <= w
  }

  /** No line of the folded output is longer than LINELEN, provided the
      terminator is a non-empty run of whitespace or control bytes. */
  lemma {:induction false} FoldLinesAtMost(cs: seq<byte>, eol: seq<byte>)
    requires eol != [] && forall k :: 0 <= k < |eol| ==> eol[k] <= SPACE
    ensures RunsAtMost(Fold(cs, eol), LINELEN)
    decreases |cs|
  {
    if |cs| > LINELEN {
      var a, b := cs[..LINELEN], Fold(cs[LINELEN..], eol);
      FoldLinesAtMost(cs[LINELEN..], eol);
      var s := a + eol + b;
      assert Fold(cs, eol) == s;
      forall i, j | 0 <= i <= j <= |s| && AllSig(s[i..j])
        ensures j - i <= LINELEN
      {
        var e := |a| + |eol|;
        if j <= |a| {
        } else if i >= e {
          assert s[i..j] == b[i - e..j - e];
        } else if i < j {
          var m := if i <= |a| then |a| else i;
          assert s[m] == eol[m - |a|];
          assert s[i..j][m - i] == s[m];
        }
      }
    }
  }

  // ---------------------------------------------------------------
  // Encoding
  // ---------------------------------------------------------------

  /** The four output characters of one input group of 1 to 3 bytes
      (b64.c:163-183): missing bytes count as zero in the bit packing,
      and the last one or two characters become '=' for a short group. */
  function EncodeGroup(g: seq<byte>): seq<byte>
    requires 1 <= |g| <= 3
  {
    var g0 := g[0];
    var g1 := if |g| > 1 then g[1] else 0;
    var g2 := if |g| > 2 then g[2] else 0;
    // igroup[0] >> 2, ((igroup[0] & 3) << 4) | (igroup[1] >> 4),
    // ((igroup[1] & 0xF) << 2) | (igroup[2] >> 6), igroup[2] & 0x3F
    var o0 := EncodeChar(g0 / 4);
    var o1 := EncodeChar((g0 % 4) * 16 + g1 / 16);
    var o2 := EncodeChar((g1 % 16) * 4 + g2 / 64);
    var o3 := EncodeChar(g2 % 64);
    [o0, o1, if |g| < 2 then PAD else o2, if |g| < 3 then PAD else o3]
  }

  /** The characters `encode` writes for `b`, before line folding: one
      group of four for every three input bytes, the last group short. */
  function EncodeChars(b: seq<byte>): seq<byte>
    decreases |b|
  {
    if b == [] then []
    else
      var k := Min(3, |b|);
      EncodeGroup(b[..k]) + EncodeChars(b[k..])
  }

  /** The group-reading loop of `encode` (b64.c:161-170): up to three
      bytes from the reader, zero-filled, and whether EOF was hit. */
  method ReadGroup(rd: Reader) returns (igroup: array<byte>, n: int, hiteof: bool)
    requires rd.Valid() && rd.Buffered()
    modifies rd, rd.iobuf
    ensures rd.Valid() && rd.Buffered()
    ensures fresh(igroup) && igroup.Length == 3 && 0 <= n <= 3
    ensures rd.Consumed() == old(rd.Consumed()) + n
    ensures igroup[..n] == rd.data[old(rd.Consumed())..rd.Consumed()]
    ensures forall j :: n <= j < 3 ==> igroup[j] == 0
    ensures hiteof <==> n < 3
    ensures hiteof ==> rd.Consumed() == |rd.data|
  {
    ghost var k := rd.Consumed();
    igroup := new byte[3](_ => 0);
    n := 0;
    hiteof := false;
    while n < 3
      invariant 0 <= n <= 3
      invariant rd.Valid() && rd.Buffered()
      invariant rd.Consumed() == k + n
      invariant igroup[..n] == rd.data[k..k + n]
      invariant forall j :: n <= j < 3 ==> igroup[j] == 0
    {
      var c := rd.Inchar();
      if c == EOF {
        hiteof := true;
        return;
      }
      igroup[n] := c;
      PrefixSnoc(igroup[..], n);
      SliceSnoc(rd.data, k, k + n);
      n := n + 1;
    }
  }

  /** The four output characters of one group (b64.c:172-182). */
  method GroupChars(dtable: array<byte>, igroup: array<byte>, n: int) returns (ogroup: array<byte>)
    requires dtable.Length == MAXINLINE && forall v :: 0 <= v < 64 ==> dtable[v] == EncodeChar(v)
    requires igroup.Length == 3 && 1 <= n <= 3 && forall j :: n <= j < 3 ==> igroup[j] == 0
    ensures fresh(ogroup) && ogroup[..] == EncodeGroup(igroup[..n])
  {
    ogroup := new byte[4];
    ogroup[0] := dtable[igroup[0] / 4];
    ogroup[1] := dtable[(igroup[0] % 4) * 16 + igroup[1] / 16];
    ogroup[2] := dtable[(igroup[1] % 16) * 4 + igroup[2] / 64];
    ogroup[3] := dtable[igroup[2] % 64];
    if n < 3 {
      ogroup[3] := PAD;
      if n < 2 {
        ogroup[2] := PAD;
      }
    }
  }

  /** Four calls of `ochar` (b64.c:183-186): the writer's state stays the
      one of having written `done + ogroup` from column 0. */
  method PutGroup(wr: Writer, ghost done: seq<byte>, ogroup: array<byte>)
    requires wr.Valid() && wr.out == Wrapped(done, wr.eol) && wr.linelength == Column(done)
    modifies wr
    ensures wr.Valid()
    ensures wr.out == Wrapped(done + ogroup[..], wr.eol)
    ensures wr.linelength == Column(done + ogroup[..])
  {
    assert done + ogroup[..0] == done;
    for i := 0 to ogroup.Length
      invariant wr.Valid()
      invariant wr.out == Wrapped(done + ogroup[..i], wr.eol)
      invariant wr.linelength == Column(done + ogroup[..i])
    {
      wr.Ochar(ogroup[i]);
      assert (done + ogroup[..i + 1])[..|done| + i] == done + ogroup[..i];
    }
    assert ogroup[..ogroup.Length] == ogroup[..];
  }

  /** One pass of the loop of `encode` (b64.c:159-187): read a group, and
      unless it is empty write its four characters. Afterwards the writer
      holds the folded encoding of everything read so far. */
  method EncodeOneGroup(rd: Reader, wr: Writer, dtable: array<byte>, ghost groups: nat, ghost enc: seq<byte>)
      returns (hiteof: bool, n: int, ghost enc': seq<byte>, ghost done: nat)
    requires rd.Valid() && rd.Buffered() && rd.iobuf != dtable
    requires dtable.Length == MAXINLINE && forall v :: 0 <= v < 64 ==> dtable[v] == EncodeChar(v)
    requires wr.Valid() && rd.Consumed() == 3 * groups
    requires enc == EncodeChars(rd.data[..3 * groups])
    requires wr.out == Wrapped(enc, wr.eol) && wr.linelength == Column(enc)
    modifies rd, rd.iobuf, wr
    ensures rd.Valid() && rd.Buffered() && wr.Valid()
    ensures 0 <= n <= 3 && done == rd.Consumed() == 3 * groups + n <= |rd.data| && (hiteof <==> n < 3)
    ensures hiteof ==> done == |rd.data|
    ensures enc' == EncodeChars(rd.data[..done])
    ensures wr.out == Wrapped(enc', wr.eol) && wr.linelength == Column(enc')
  {
    var igroup;
    igroup, n, hiteof := ReadGroup(rd);
    done := rd.Consumed();
    if n > 0 {
      enc' := WriteGroup(wr, dtable, igroup, n, rd.data, groups, done, enc);
    } else {
      enc' := enc;
      assert wr.out == old(wr.out) && wr.linelength == old(wr.linelength);
    }
  }

  /** The rest of one pass when the group is not empty (b64.c:172-186):
      encode it and hand its four characters to `ochar`. */
  method WriteGroup(wr: Writer, dtable: array<byte>, igroup: array<byte>, n: int,
                    ghost data: seq<byte>, ghost groups: nat, ghost upto: nat, ghost enc: seq<byte>)
      returns (ghost enc': seq<byte>)
    requires dtable.Length == MAXINLINE && forall v :: 0 <= v < 64 ==> dtable[v] == EncodeChar(v)
    requires igroup.Length == 3 && 1 <= n <= 3 && forall j :: n <= j < 3 ==> igroup[j] == 0
    requires upto == 3 * groups + n <= |data| && (n < 3 ==> upto == |data|)
    requires igroup[..n] == data[3 * groups..upto]
    requires enc == EncodeChars(data[..3 * groups])
    requires wr.Valid() && wr.out == Wrapped(enc, wr.eol) && wr.linelength == Column(enc)
    modifies wr
    ensures wr.Valid()
    ensures enc' == EncodeChars(data[..upto])
    ensures wr.out == Wrapped(enc', wr.eol) && wr.linelength == Column(enc')
  {
    var ogroup := GroupChars(dtable, igroup, n);
    EncodeStep(data, groups, n, upto, igroup[..n], ogroup[..]);
    PutGroup(wr, enc, ogroup);
    enc' := enc + ogroup[..];
  }

  /** The group loop of `encode` (b64.c:159-187): from a fresh reader
      and an empty writer, it leaves the folded encoding of the whole
      file in the writer. */
  method EncodeGroups(rd: Reader, wr: Writer, dtable: array<byte>)
    requires rd.Valid() && rd.Buffered() && rd.Consumed() == 0 && rd.iobuf != dtable
    requires dtable.Length == MAXINLINE && forall v :: 0 <= v < 64 ==> dtable[v] == EncodeChar(v)
    requires wr.Valid() && wr.out == [] && wr.linelength == 0
    modifies rd, rd.iobuf, wr
    ensures wr.out == Wrapped(EncodeChars(rd.data), wr.eol)
  {
    var hiteof := false;
    ghost var groups := 0;
    ghost var enc: seq<byte> := [];
    ghost var done := 0;
    while !hiteof
      invariant rd.Valid() && rd.Buffered() && wr.Valid()
      invariant rd.Consumed() == done <= |rd.data|
      invariant hiteof ==> done == |rd.data|
      invariant !hiteof ==> done == 3 * groups
      invariant enc == EncodeChars(rd.data[..done])
      invariant wr.out == Wrapped(enc, wr.eol) && wr.linelength == Column(enc)
      decreases |rd.data| - done, !hiteof
    {
      var n;
      hiteof, n, enc, done := EncodeOneGroup(rd, wr, dtable, groups, enc);
      groups := groups + 1;
    }
    assert rd.data[..done] == rd.data;
  }

  /** `encode` (b64.c:127-189) on the input file `data`. The result is
      the folded character stream followed by one final `eol`, which is
      written even for empty input. */
  method Encode(data: seq<byte>, eol: seq<byte>) returns (out: seq<byte>)
    ensures out == Wrapped(EncodeChars(data), eol) + eol
  {
    var dtable := BuildEncodeTable();
    var rd := new Reader(data);
    var wr := new Writer(eol);
    EncodeGroups(rd, wr, dtable);
    wr.Puts(eol);
    out := wr.out;
  }


  /** Encoding a prefix that ends on a group boundary, extended by the
      next group, appends that group's four characters. */
  lemma EncodeStep(data: seq<byte>, groups: nat, n: nat, upto: nat, g: seq<byte>, o: seq<byte>)
    requires 1 <= n <= 3 && upto == 3 * groups + n <= |data|
    requires n < 3 ==> upto == |data|
    requires g == data[3 * groups..upto] && o == EncodeGroup(g)
    ensures EncodeChars(data[..upto]) == EncodeChars(data[..3 * groups]) + o
  {
    var k := 3 * groups;
    assert data[..upto] == data[..k] + g;
    EncodeAppend(data[..k], g);
  }

  lemma {:induction false} EncodeAppend(a: seq<byte>, g: seq<byte>)
    requires |a| % 3 == 0 && 1 <= |g| <= 3
    ensures EncodeChars(a + g) == EncodeChars(a) + EncodeGroup(g)
    decreases |a|
  {
    if a == [] {
      assert g[..Min(3, |g|)] == g && g[Min(3, |g|)..] == [];
      assert a + g == g;
    } else {
      EncodeAppend(a[3..], g);
      assert (a + g)[..3] == a[..3];
      assert (a + g)[3..] == a[3..] + g;
    }
  }

  // ---------------------------------------------------------------
  // Properties of the encoding
  // ---------------------------------------------------------------

  /** Four output characters for every started group of three bytes. */
  lemma {:induction false} EncodeLength(b: seq<byte>)
    ensures |EncodeChars(b)| == 4 * ((|b| + 2) / 3)
    decreases |b|
  {
    if b != [] {
      var k := Min(3, |b|);
      EncodeLength(b[k..]);
      assert |EncodeGroup(b[..k])| == 4;
      assert (|b| + 2) / 3 == (|b| - k + 2) / 3 + 1;
    }
  }

  /** The number of pad characters for an input of length n. */
  function PadCount(n: nat): nat
  {
    if n % 3 == 0 then 0 else 3 - n % 3
  }

  /** Padding: no '=' for a length 3k, two trailing '=' for 3k+1 and one
      for 3k+2; every other character is from the alphabet. */
  lemma {:induction false} EncodePadding(b: seq<byte>)
    ensures var e := EncodeChars(b);
      |e| == 4 * ((|b| + 2) / 3) &&
      forall i :: 0 <= i < |e| ==>
        (e[i] == PAD <==> i >= |e| - PadCount(|b|)) &&
        (e[i] != PAD ==> exists v :: 0 <= v < 64 && EncodeChar(v) == e[i])
    decreases |b|
  {
    EncodeLength(b);
    if b != [] {
      var k := Min(3, |b|);
      var g := EncodeGroup(b[..k]);
      EncodePadding(b[k..]);
      var e := EncodeChars(b);
      assert e == g + EncodeChars(b[k..]);
      assert |b| > 3 ==> PadCount(|b|) == PadCount(|b| - 3);
      forall i | 0 <= i < |e|
        ensures (e[i] == PAD <==> i >= |e| - PadCount(|b|))
        ensures (e[i] != PAD ==> exists v :: 0 <= v < 64 && EncodeChar(v) == e[i])
      {
        if i < 4 {
          var g0, g1 := b[0], if k > 1 then b[1] else 0;
          var g2 := if k > 2 then b[2] else 0;
          DecodeInvertsEncode(g0 / 4);
          DecodeInvertsEncode((g0 % 4) * 16 + g1 / 16);
          DecodeInvertsEncode((g1 % 16) * 4 + g2 / 64);
          DecodeInvertsEncode(g2 % 64);
        }
      }
    }
  }

  // ---------------------------------------------------------------
  // Decoding
  // ---------------------------------------------------------------

  /** How a decode call ends: normally, or with one of the two messages
      `decode` prints before `exit(1)`. */
  datatype Status = Success | Incomplete | IllegalCharacter(c: byte)

  /** The outcome of reading one group from the significant input. */
  datatype Scan = EndOfInput | Failed(status: Status) | Group(a: seq<byte>, rest: seq<byte>)

  /** The inner loop of `decode` (b64.c:248-269) on the significant bytes
      `s`, with `acc` the characters already accepted for this group.
      EOF at the start of a group ends decoding normally; EOF inside a
      group is "Input file incomplete" with `errcheck` and a normal end
      without. An invalid byte is "Illegal character" with `errcheck`;
      without, it is skipped and the same group position is read again. */
  function ScanGroup(s: seq<byte>, errcheck: bool, acc: seq<byte>): (r: Scan)
    requires |acc| <= 4
    ensures r.Group? ==> |r.a| == 4 && |r.rest| <= |s| - (4 - |acc|)
    decreases |s|
  {
    if |acc| == 4 then Group(acc, s)
    else if s == [] then
      (if errcheck && |acc| > 0 then Failed(Incomplete) else EndOfInput)
    else if !IsValid(s[0]) then
      (if errcheck then Failed(IllegalCharacter(s[0])) else ScanGroup(s[1..], errcheck, acc))
    else ScanGroup(s[1..], errcheck, acc + [s[0]])
  }

  /** One step of `ScanGroup` on a significant byte `c`. */
  lemma ScanHead(c: byte, rest: seq<byte>, errcheck: bool, acc: seq<byte>)
    requires |acc| < 4
    ensures ScanGroup([c] + rest, errcheck, acc) ==
      if !IsValid(c) then
        (if errcheck then Failed(IllegalCharacter(c)) else ScanGroup(rest, errcheck, acc))
      else ScanGroup(rest, errcheck, acc + [c])
  {
    assert ([c] + rest)[1..] == rest;
  }

  /** The bytes one group of four valid characters stands for
      (b64.c:271-274): o0 = (b0<<2)|(b1>>4), o1 = (b1<<4)|(b2>>2) and
      o2 = (b2<<6)|b3, each truncated to a byte; only o0 if the third
      character is '=', o0 and o1 if only the fourth is, else all three.
      The two operands of each `|` have no bit in common, so it is `+`;
      the truncation to a byte is `% 256`. */
  function GroupBytes(a: seq<byte>): seq<byte>
    requires |a| == 4
  {
    var n := if a[2] == PAD then 1 else if a[3] == PAD then 2 else 3;
    Pack(DecodeValue(a[0]), DecodeValue(a[1]), DecodeValue(a[2]), DecodeValue(a[3]), n)
  }

  /** Four 6-bit values packed into three `unsigned char`s, of which the
      first `n` are kept. */
  function Pack(b0: int, b1: int, b2: int, b3: int, n: int): (r: seq<byte>)
    requires 1 <= n <= 3
    ensures |r| == n
  {
    var o: seq<byte> := [(b0 * 4 + b1 / 16) % 256, (b1 * 16 + b2 / 4) % 256, (b2 * 64 + b3) % 256];
    o[..n]
  }

  /** What `decode` writes and how it ends. */
  datatype Decoded = Decoded(out: seq<byte>, status: Status)

  /** `decode` on the significant bytes `s`. A group that yields fewer
      than three bytes ends decoding at once. */
  function DecodeSig(s: seq<byte>, errcheck: bool): Decoded
    decreases |s|
  {
    match ScanGroup(s, errcheck, [])
    case EndOfInput => Decoded([], Success)
    case Failed(st) => Decoded([], st)
    case Group(a, rest) =>
      var o := GroupBytes(a);
      if |o| < 3 then Decoded(o, Success)
      else
        var d := DecodeSig(rest, errcheck);
        Decoded(o + d.out, d.status)
  }

  /** `decode` on the input file `data`. */
  function DecodeSpec(data: seq<byte>, errcheck: bool): Decoded
  {
    DecodeSig(Sig(data), errcheck)
  }

  /** One position of the group-reading loop of `decode`
      (b64.c:250-268): the next significant byte that the table accepts,
      with the invalid ones before it skipped when `errcheck` is off (the
      `i--` retry); or the status decoding ends with, on EOF or on an
      invalid byte under `errcheck`. `i` is the number of characters of
      the group already read. */
  method ReadValid(rd: Reader, dtable: array<byte>, errcheck: bool, i: int, ghost acc: seq<byte>)
      returns (c: int, stop: Option<Status>)
    requires rd.Valid() && rd.Buffered() && i == |acc| < 4
    requires dtable.Length == MAXINLINE && forall c :: 0 <= c < MAXINLINE ==> dtable[c] == DecodeValue(c)
    requires dtable != rd.iobuf
    modifies rd, rd.iobuf
    ensures rd.Valid() && rd.Buffered() && rd.Consumed() >= old(rd.Consumed())
    ensures stop.None? ==>
      0 <= c < MAXINLINE && IsValid(c) && rd.Consumed() > old(rd.Consumed()) &&
      ScanGroup(Sig(rd.data[old(rd.Consumed())..]), errcheck, acc) ==
        ScanGroup(Sig(rd.data[rd.Consumed()..]), errcheck, acc + [c])
    ensures stop.Some? ==>
      ScanGroup(Sig(rd.data[old(rd.Consumed())..]), errcheck, acc) ==
        if stop.value == Success then EndOfInput else Failed(stop.value)
  {
    ghost var s0 := Sig(rd.data[rd.Consumed()..]);
    ghost var k0 := rd.Consumed();
    while true
      invariant rd.Valid() && rd.Buffered() && k0 <= rd.Consumed()
      invariant ScanGroup(s0, errcheck, acc) == ScanGroup(Sig(rd.data[rd.Consumed()..]), errcheck, acc)
      decreases |rd.data| - rd.Consumed()
    {
      ghost var s := Sig(rd.data[rd.Consumed()..]);
      c := rd.Insig();
      if c == EOF {
        assert s == [];
        if errcheck && i > 0 {
          return c, Some(Incomplete);
        }
        return c, Some(Success);
      }
      ghost var rest := Sig(rd.data[rd.Consumed()..]);
      assert s == [c] + rest;
      ScanHead(c, rest, errcheck, acc);
      if dtable[c] < 0x80 {
        return c, None;
      }
      if errcheck {
        return c, Some(IllegalCharacter(c));
      }
    }
  }

  /** The group-reading loop of `decode` (b64.c:248-269). It ends with
      `stop == None` and four valid characters in `a` (with their table
      values in `b`), or with the status decoding ends with. */
  method ReadQuad(rd: Reader, dtable: array<byte>, errcheck: bool)
      returns (a: array<byte>, b: array<byte>, stop: Option<Status>)
    requires rd.Valid() && rd.Buffered()
    requires dtable.Length == MAXINLINE && forall c :: 0 <= c < MAXINLINE ==> dtable[c] == DecodeValue(c)
    requires dtable != rd.iobuf
    modifies rd, rd.iobuf
    ensures rd.Valid() && rd.Buffered()
    ensures fresh(a) && fresh(b) && a.Length == 4 && b.Length == 4
    ensures stop.None? ==>
      rd.Consumed() >= old(rd.Consumed()) + 4 &&
      (forall j :: 0 <= j < 4 ==> b[j] == DecodeValue(a[j])) &&
      ScanGroup(Sig(rd.data[old(rd.Consumed())..]), errcheck, []) == Group(a[..], Sig(rd.data[rd.Consumed()..]))
    ensures stop.Some? ==>
      ScanGroup(Sig(rd.data[old(rd.Consumed())..]), errcheck, []) ==
        if stop.value == Success then EndOfInput else Failed(stop.value)
  {
    ghost var s0 := Sig(rd.data[rd.Consumed()..]);
    ghost var k0 := rd.Consumed();
    a := new byte[4];
    b := new byte[4];
    var i := 0;
    ghost var acc: seq<byte> := [];
    ghost var vals: seq<byte> := [];
    while i < 4
      invariant 0 <= i <= 4 && |acc| == i && |vals| == i
      invariant rd.Valid() && rd.Buffered()
      invariant k0 + i <= rd.Consumed()
      invariant a[..i] == acc && b[..i] == vals
      invariant forall j :: 0 <= j < i ==> vals[j] == DecodeValue(acc[j])
      invariant ScanGroup(s0, errcheck, []) == ScanGroup(Sig(rd.data[rd.Consumed()..]), errcheck, acc)
    {
      var c, st := ReadValid(rd, dtable, errcheck, i, acc);
      if st.Some? {
        return a, b, st;
      }
      a[i] := c;
      b[i] := dtable[c];
      PrefixSnoc(a[..], i);
      PrefixSnoc(b[..], i);
      acc := acc + [c];
      vals := vals + [b[i]];
      i := i + 1;
    }
    assert a[..] == acc && b[..] == vals;
    stop := None;
  }

  /** One pass of the outer loop of `decode` (b64.c:246-281): read a
      group and compute its bytes. With `stop == None` all three bytes were
      produced and decoding goes on; otherwise decoding ends with `o` as
      its last output and `stop` as its status. */
  method DecodeOneGroup(rd: Reader, dtable: array<byte>, errcheck: bool, ghost sig: seq<byte>)
      returns (o: seq<byte>, stop: Option<Status>)
    requires rd.Valid() && rd.Buffered() && rd.iobuf != dtable
    requires dtable.Length == MAXINLINE && forall c :: 0 <= c < MAXINLINE ==> dtable[c] == DecodeValue(c)
    requires sig == Sig(rd.data[rd.Consumed()..])
    modifies rd, rd.iobuf
    ensures rd.Valid() && rd.Buffered()
    ensures stop.Some? ==> DecodeSig(sig, errcheck) == Decoded(o, stop.value)
    ensures stop.None? ==>
      rd.Consumed() > old(rd.Consumed()) &&
      DecodeSig(sig, errcheck) == Prepend(o, DecodeSig(Sig(rd.data[rd.Consumed()..]), errcheck))
  {
    var a, b, stop0 := ReadQuad(rd, dtable, errcheck);
    if stop0.Some? {
      DecodeStops(sig, errcheck);
      return [], stop0;
    }
    o := GroupOut(a, b);
    DecodeGroup(sig, errcheck);
    stop := if |o| < 3 then Some(Success) else None;
  }

  /** The bytes of one complete group (b64.c:271-274): the four 6-bit
      values packed into three bytes, of which 1, 2 or 3 are kept by
      where the padding starts. */
  method GroupOut(a: array<byte>, b: array<byte>) returns (o: seq<byte>)
    requires a.Length == 4 && b.Length == 4
    requires forall j :: 0 <= j < 4 ==> b[j] == DecodeValue(a[j])
    ensures o == GroupBytes(a[..])
  {
    var ob := new byte[3];
    ob[0] := (b[0] as int * 4 + b[1] / 16) % 256;
    ob[1] := (b[1] as int * 16 + b[2] / 4) % 256;
    ob[2] := (b[2] as int * 64 + b[3]) % 256;
    var i := if a[2] == PAD then 1 else if a[3] == PAD then 2 else 3;
    o := ob[..i];
  }

  /** `decode` (b64.c:205-284) on the input file `data`. `errcheck` is the
      module flag of b64.c:42; the output already written stays written
      when decoding fails. */
  method Decode(data: seq<byte>, errcheck: bool) returns (out: seq<byte>, status: Status)
    ensures Decoded(out, status) == DecodeSpec(data, errcheck)
  {
    var dtable := BuildDecodeTable();
    var rd := new Reader(data);
    out := [];
    assert data[rd.Consumed()..] == data;
    while true
      invariant rd.Valid() && rd.Buffered() && rd.data == data && fresh(rd.iobuf)
      invariant rd.iobuf != dtable
      invariant forall c :: 0 <= c < MAXINLINE ==> dtable[c] == DecodeValue(c)
      invariant DecodeSpec(data, errcheck) == Prepend(out, DecodeSig(Sig(data[rd.Consumed()..]), errcheck))
      decreases |data| - rd.Consumed()
    {
      ghost var sig := Sig(data[rd.Consumed()..]);
      var o, stop := DecodeOneGroup(rd, dtable, errcheck, sig);
      PrependAssoc(out, o, DecodeSig(Sig(data[rd.Consumed()..]), errcheck));
      out := out + o;
      if stop.Some? {
        return out, stop.value;
      }
    }
  }

  /** `out` followed by what `d` writes. */
  function Prepend(out: seq<byte>, d: Decoded): Decoded
  {
    Decoded(out + d.out, d.status)
  }

  lemma PrependAssoc(a: seq<byte>, b: seq<byte>, d: Decoded)
    ensures Prepend(a, Prepend(b, d)) == Prepend(a + b, d)
  {
    assert a + (b + d.out) == (a + b) + d.out;
  }

  lemma DecodeStops(s: seq<byte>, errcheck: bool)
    requires !ScanGroup(s, errcheck, []).Group?
    ensures DecodeSig(s, errcheck) ==
      Decoded([], if ScanGroup(s, errcheck, []).EndOfInput? then Success else ScanGroup(s, errcheck, []).status)
  {
  }

  lemma DecodeGroup(s: seq<byte>, errcheck: bool)
    requires ScanGroup(s, errcheck, []).Group?
    ensures var g := ScanGroup(s, errcheck, []);
      DecodeSig(s, errcheck) ==
        if |GroupBytes(g.a)| < 3 then Decoded(GroupBytes(g.a), Success)
        else Prepend(GroupBytes(g.a), DecodeSig(g.rest, errcheck))
  {
  }
}

/** Properties of the codec: the decoder inverts the encoder, and how the
    two error modes of the decoder behave. */
module B64Properties {
  import opened CTypes
  import opened B64

  lemma {:induction false} SigAppend(a: seq<byte>, b: seq<byte>)
    ensures Sig(a + b) == Sig(a) + Sig(b)
    decreases |a|
  {
    if a == [] {
      assert a + b == b;
    } else {
      var h: seq<byte> := if a[0] > SPACE then [a[0]] else [];
      assert Sig(a) == h + Sig(a[1..]);
      assert (a + b)[1..] == a[1..] + b;
      assert Sig(a + b) == h + Sig(a[1..] + b);
      SigAppend(a[1..], b);
      assert h + (Sig(a[1..]) + Sig(b)) == (h + Sig(a[1..])) + Sig(b);
    }
  }

  lemma {:induction false} SigOfSig(s: seq<byte>)
    requires AllSig(s)
    ensures Sig(s) == s
    decreases |s|
  {
    if s != [] {
      SigOfSig(s[1..]);
    }
  }

  lemma {:induction false} SigOfBlank(s: seq<byte>)
    requires forall k :: 0 <= k < |s| ==> s[k] <= SPACE
    ensures Sig(s) == []
    decreases |s|
  {
    if s != [] {
      SigOfBlank(s[1..]);
    }
  }

  /** Folding only inserts blank bytes between significant ones. */
  lemma {:induction false} SigOfFold(cs: seq<byte>, eol: seq<byte>)
    requires AllSig(cs) && forall k :: 0 <= k < |eol| ==> eol[k] <= SPACE
    ensures Sig(Fold(cs, eol)) == cs
    decreases |cs|
  {
    if |cs| <= LINELEN {
      SigOfSig(cs);
    } else {
      SigOfFold(cs[LINELEN..], eol);
      SigAppend(cs[..LINELEN] + eol, Fold(cs[LINELEN..], eol));
      SigAppend(cs[..LINELEN], eol);
      SigOfSig(cs[..LINELEN]);
      SigOfBlank(eol);
      assert cs[..LINELEN] + cs[LINELEN..] == cs;
    }
  }

  /** Every character the encoder emits is significant and valid. */
  lemma EncodeCharsValid(b: seq<byte>)
    ensures forall i :: 0 <= i < |EncodeChars(b)| ==>
      EncodeChars(b)[i] > SPACE && IsValid(EncodeChars(b)[i])
  {
    EncodePadding(b);
    var e := EncodeChars(b);
    forall i | 0 <= i < |e|
      ensures e[i] > SPACE && IsValid(e[i])
    {
      if e[i] != PAD {
        var v :| 0 <= v < 64 && EncodeChar(v) == e[i];
        DecodeInvertsEncode(v);
      }
    }
  }

  /** Four valid characters at the head of the input form a group. */
  lemma {:induction false} ScanValid(q: seq<byte>, t: seq<byte>, errcheck: bool, acc: seq<byte>)
    requires |acc| + |q| == 4
    requires forall j :: 0 <= j < |q| ==> IsValid(q[j])
    ensures ScanGroup(q + t, errcheck, acc) == Group(acc + q, t)
    decreases |q|
  {
    if q == [] {
      assert acc + q == acc && q + t == t;
    } else {
      ScanValid(q[1..], t, errcheck, acc + [q[0]]);
      assert (q + t)[1..] == q[1..] + t;
      assert acc + [q[0]] + q[1..] == acc + q;
    }
  }

  lemma Unpack0(x: int, y: int)
    requires 0 <= x < 256 && 0 <= y < 256
    ensures ((x / 4) * 4 + ((x % 4) * 16 + y / 16) / 16) % 256 == x
  {
    assert ((x % 4) * 16 + y / 16) / 16 == x % 4;
  }

  lemma Unpack1(x: int, y: int, z: int)
    requires 0 <= x < 256 && 0 <= y < 256 && 0 <= z < 256
    ensures (((x % 4) * 16 + y / 16) * 16 + ((y % 16) * 4 + z / 64) / 4) % 256 == y
  {
    var q := x % 4;
    assert ((y % 16) * 4 + z / 64) / 4 == y % 16;
    assert ((q * 16 + y / 16) * 16 + y % 16) == q * 256 + y;
  }

  lemma Unpack2(y: int, z: int)
    requires 0 <= y < 256 && 0 <= z < 256
    ensures (((y % 16) * 4 + z / 64) * 64 + z % 64) % 256 == z
  {
    var r := y % 16;
    assert ((r * 4 + z / 64) * 64 + z % 64) == r * 256 + z;
  }

  /** The table values of the characters `EncodeGroup` emits (the pad
      character counts 0), and where its padding starts. */
  lemma GroupValues(g: seq<byte>)
    requires 1 <= |g| <= 3
    ensures var e := EncodeGroup(g);
      var g0: int := g[0];
      var g1: int := if |g| > 1 then g[1] else 0;
      var g2: int := if |g| > 2 then g[2] else 0;
      DecodeValue(e[0]) == g0 / 4 && DecodeValue(e[1]) == (g0 % 4) * 16 + g1 / 16 &&
      DecodeValue(e[2]) == (g1 % 16) * 4 + g2 / 64 && DecodeValue(e[3]) == g2 % 64 &&
      (e[2] == PAD <==> |g| == 1) && (e[3] == PAD <==> |g| < 3)
  {
    var g0: int := g[0];
    var g1: int := if |g| > 1 then g[1] else 0;
    var g2: int := if |g| > 2 then g[2] else 0;
    DecodeInvertsEncode(g0 / 4);
    DecodeInvertsEncode((g0 % 4) * 16 + g1 / 16);
    DecodeInvertsEncode((g1 % 16) * 4 + g2 / 64);
    DecodeInvertsEncode(g2 % 64);
  }

  /** Packing the four values `encode` splits a group into gives the
      group back. */
  lemma PackRoundTrip(g: seq<byte>)
    requires 1 <= |g| <= 3
    ensures var g0: int := g[0];
      var g1: int := if |g| > 1 then g[1] else 0;
      var g2: int := if |g| > 2 then g[2] else 0;
      Pack(g0 / 4, (g0 % 4) * 16 + g1 / 16, (g1 % 16) * 4 + g2 / 64, g2 % 64, |g|) == g
  {
    var g0: int := g[0];
    var g1: int := if |g| > 1 then g[1] else 0;
    var g2: int := if |g| > 2 then g[2] else 0;
    Unpack0(g0, g1);
    Unpack1(g0, g1, g2);
    Unpack2(g1, g2);
  }

  /** The bit packing of `decode` undoes the one of `encode`. */
  lemma GroupRoundTrip(g: seq<byte>)
    requires 1 <= |g| <= 3
    ensures GroupBytes(EncodeGroup(g)) == g
  {
    GroupValues(g);
    PackRoundTrip(g);
  }

  /** Decoding the encoder's characters gives back the input, in either
      error mode and with a normal end. */
  lemma {:induction false} DecodeEncodeChars(b: seq<byte>, errcheck: bool)
    ensures DecodeSig(EncodeChars(b), errcheck) == Decoded(b, Success)
    decreases |b|
  {
    if b != [] {
      var k := Min(3, |b|);
      var q := EncodeGroup(b[..k]);
      var t := EncodeChars(b[k..]);
      assert EncodeChars(b) == q + t;
      EncodeCharsValid(b);
      assert forall j :: 0 <= j < 4 ==> IsValid(q[j]) by {
        forall j | 0 <= j < 4 ensures IsValid(q[j]) {
          assert q[j] == EncodeChars(b)[j];
        }
      }
      ScanValid(q, t, errcheck, []);
      assert [] + q == q;
      GroupRoundTrip(b[..k]);
      if k == 3 {
        DecodeEncodeChars(b[k..], errcheck);
        assert b[..k] + b[k..] == b;
      } else {
        assert b[..k] == b;
      }
    }
  }

  /** The round trip: `decode` of what `encode` writes is the original
      input, with no error in strict mode, whenever the line terminator
      consists of blank bytes (as "\n" and "\r\n" do). */
  lemma RoundTrip(b: seq<byte>, eol: seq<byte>, errcheck: bool)
    requires forall k :: 0 <= k < |eol| ==> eol[k] <= SPACE
    ensures DecodeSpec(Wrapped(EncodeChars(b), eol) + eol, errcheck) == Decoded(b, Success)
  {
    var cs := EncodeChars(b);
    EncodeCharsValid(b);
    WrappedIsFold(cs, eol);
    SigAppend(Fold(cs, eol), eol);
    SigOfFold(cs, eol);
    SigOfBlank(eol);
    assert Sig(Wrapped(cs, eol) + eol) == cs;
    DecodeEncodeChars(b, errcheck);
  }

  /** The four bytes "Man " (0x4D 0x61 0x6E 0x20) encode to "TWFuIA==":
      one full group and a one-byte tail padded with two '='. */
  lemma EncodeExample()
    ensures EncodeChars([0x4D, 0x61, 0x6E, 0x20]) ==
            ['T' as int, 'W' as int, 'F' as int, 'u' as int, 'I' as int, 'A' as int, PAD, PAD]
  {
    var b: seq<byte> := [0x4D, 0x61, 0x6E, 0x20];
    assert b[..3] == [0x4D, 0x61, 0x6E] && b[3..] == [0x20];
    assert b[3..][..1] == [0x20] && b[3..][1..] == [];
  }

  /** Appending blank bytes creates no longer run. */
  lemma RunsAppendBlank(f: seq<byte>, eol: seq<byte>, w: int)
    requires RunsAtMost(f, w) && w >= 0
    requires forall k :: 0 <= k < |eol| ==> eol[k] <= SPACE
    ensures RunsAtMost(f + eol, w)
  {
    var s := f + eol;
    forall i, j | 0 <= i <= j <= |s| && AllSig(s[i..j])
      ensures j - i <= w
    {
      if i < j {
        assert s[i..j][j - 1 - i] == s[j - 1];
        assert j <= |f|;
        assert s[i..j] == f[i..j];
      }
    }
  }

  /** The encoder's output has no line longer than LINELEN. */
  lemma EncodeLines(b: seq<byte>, eol: seq<byte>)
    requires eol != [] && forall k :: 0 <= k < |eol| ==> eol[k] <= SPACE
    ensures RunsAtMost(Wrapped(EncodeChars(b), eol) + eol, LINELEN)
  {
    var cs := EncodeChars(b);
    WrappedIsFold(cs, eol);
    FoldLinesAtMost(cs, eol);
    RunsAppendBlank(Fold(cs, eol), eol, LINELEN);
  }

  // ---------------------------------------------------------------
  // The two error modes
  // ---------------------------------------------------------------

  /** Without `errcheck` decoding never fails. */
  lemma {:induction false} LenientNeverFails(s: seq<byte>)
    ensures DecodeSig(s, false).status == Success
    decreases |s|
  {
    LenientScan(s, []);
    match ScanGroup(s, false, [])
    case EndOfInput =>
    case Group(a, rest) =>
      if |GroupBytes(a)| == 3 {
        LenientNeverFails(rest);
      }
  }

  lemma {:induction false} LenientScan(s: seq<byte>, acc: seq<byte>)
    requires |acc| <= 4
    ensures !ScanGroup(s, false, acc).Failed?
    decreases |s|
  {
    if |acc| < 4 && s != [] {
      LenientScan(s[1..], if IsValid(s[0]) then acc + [s[0]] else acc);
    }
  }

  /** The valid bytes of `s`. */
  function Filter(s: seq<byte>): seq<byte>
  {
    if s == [] then [] else (if IsValid(s[0]) then [s[0]] else []) + Filter(s[1..])
  }

  lemma FilterInvalidHead(c: byte, t: seq<byte>)
    ensures Filter([c] + t) == (if IsValid(c) then [c] else []) + Filter(t)
  {
    assert ([c] + t)[1..] == t;
  }

  lemma {:induction false} LenientScanFilter(s: seq<byte>, acc: seq<byte>)
    requires |acc| <= 4
    ensures var r, f := ScanGroup(s, false, acc), ScanGroup(Filter(s), false, acc);
      (r.EndOfInput? <==> f.EndOfInput?) &&
      (r.Group? ==> f.Group? && f.a == r.a && f.rest == Filter(r.rest))
    decreases |s|
  {
    if |acc| < 4 && s != [] {
      var c, t := s[0], s[1..];
      assert s == [c] + t;
      FilterInvalidHead(c, t);
      if IsValid(c) {
        LenientScanFilter(t, acc + [c]);
        ScanHead(c, Filter(t), false, acc);
      } else {
        assert Filter(s) == Filter(t);
        LenientScanFilter(t, acc);
      }
    }
  }

  /** Without `errcheck`, decoding skips every invalid byte: it decodes
      exactly what it would decode with those bytes removed. */
  lemma {:induction false} LenientIgnoresInvalid(s: seq<byte>)
    ensures DecodeSig(s, false) == DecodeSig(Filter(s), false)
    decreases |s|
  {
    LenientScanFilter(s, []);
    LenientScan(s, []);
    LenientScan(Filter(s), []);
    match ScanGroup(s, false, [])
    case EndOfInput =>
    case Group(a, rest) =>
      if |GroupBytes(a)| == 3 {
        LenientIgnoresInvalid(rest);
      }
  }

  /** The bytes accepted by the decoder other than '='. */
  predicate DataChars(s: seq<byte>)
  {
    forall k :: 0 <= k < |s| ==> IsValid(s[k]) && s[k] != PAD
  }

  /** `ScanGroup` over data characters `p` followed by the end of the
      input or by an invalid byte. */
  lemma {:induction false} ScanData(p: seq<byte>, u: seq<byte>, errcheck: bool, acc: seq<byte>)
    requires |acc| <= 4 && DataChars(acc) && DataChars(p)
    requires u == [] || !IsValid(u[0])
    ensures var r := ScanGroup(p + u, errcheck, acc);
      (|acc| + |p| >= 4 ==>
        r == Group(acc + p[..4 - |acc|], p[4 - |acc|..] + u) && DataChars(r.a)) &&
      (|acc| + |p| < 4 ==>
        r == if u == [] then (if errcheck && |acc| + |p| > 0 then Failed(Incomplete) else EndOfInput)
             else if errcheck then Failed(IllegalCharacter(u[0]))
             else ScanGroup(u[1..], false, acc + p))
    decreases |p|
  {
    if |acc| == 4 {
      ScanDataFull(p, u, errcheck, acc);
    } else if p == [] {
      assert p + u == u && acc + p == acc;
      ScanDataEnd(u, errcheck, acc);
    } else {
      var c := p[0];
      ScanDataStep(p, u, errcheck, acc);
      ScanData(p[1..], u, errcheck, acc + [c]);
      ShiftSlices(acc, p);
    }
  }

  /** Moving the first byte of `p` into `acc` leaves the split points
      where they were. */
  lemma ShiftSlices(acc: seq<byte>, p: seq<byte>)
    requires p != [] && |acc| < 4
    ensures acc + [p[0]] + p[1..] == acc + p
    ensures |acc| + |p| >= 4 ==>
      p[1..][4 - |acc| - 1..] == p[4 - |acc|..] &&
      acc + [p[0]] + p[1..][..4 - |acc| - 1] == acc + p[..4 - |acc|]
  {
    assert [p[0]] + p[1..] == p;
    assert acc + [p[0]] + p[1..] == acc + ([p[0]] + p[1..]);
    if |acc| + |p| >= 4 {
      var k := 4 - |acc|;
      assert p[1..][k - 1..] == p[k..];
      assert [p[0]] + p[1..][..k - 1] == p[..k];
      assert acc + [p[0]] + p[1..][..k - 1] == acc + ([p[0]] + p[1..][..k - 1]);
    }
  }

  /** A complete group is returned as it is. */
  lemma ScanDataFull(p: seq<byte>, u: seq<byte>, errcheck: bool, acc: seq<byte>)
    requires |acc| == 4 && DataChars(acc)
    ensures ScanGroup(p + u, errcheck, acc) == Group(acc + p[..0], p[0..] + u) && DataChars(acc)
  {
    assert p[..0] == [] && p[0..] == p;
    assert acc + [] == acc;
  }

  /** Data characters run out before the group is complete. */
  lemma ScanDataEnd(u: seq<byte>, errcheck: bool, acc: seq<byte>)
    requires |acc| < 4
    requires u == [] || !IsValid(u[0])
    ensures ScanGroup(u, errcheck, acc) ==
      if u == [] then (if errcheck && |acc| > 0 then Failed(Incomplete) else EndOfInput)
      else if errcheck then Failed(IllegalCharacter(u[0]))
      else ScanGroup(u[1..], false, acc)
  {
  }

  /** A data character is taken into the group. */
  lemma ScanDataStep(p: seq<byte>, u: seq<byte>, errcheck: bool, acc: seq<byte>)
    requires |acc| < 4 && DataChars(acc) && DataChars(p) && p != []
    ensures DataChars(acc + [p[0]]) && DataChars(p[1..])
    ensures ScanGroup(p + u, errcheck, acc) == ScanGroup(p[1..] + u, errcheck, acc + [p[0]])
  {
    var c := p[0];
    assert IsValid(c);
    assert p + u == [c] + (p[1..] + u);
    ScanHead(c, p[1..] + u, errcheck, acc);
  }

  /** On input made only of data characters (no '=' and no invalid byte)
      strict decoding writes what lenient decoding writes, and fails as
      incomplete exactly when the length is not a multiple of four. */
  lemma {:induction false} StrictOnData(s: seq<byte>)
    requires DataChars(s)
    ensures DecodeSig(s, true) ==
      Decoded(DecodeSig(s, false).out, if |s| % 4 == 0 then Success else Incomplete)
    decreases |s|
  {
    if |s| >= 4 {
      DataGroup(s, true);
      DataGroup(s, false);
      StrictOnData(s[4..]);
      assert (|s| - 4) % 4 == |s| % 4;
    } else {
      ScanData(s, [], true, []);
      ScanData(s, [], false, []);
      assert s + [] == s;
      DecodeStops(s, true);
      DecodeStops(s, false);
    }
  }

  /** Four leading data characters form a full group of three bytes. */
  lemma DataGroup(s: seq<byte>, errcheck: bool)
    requires DataChars(s) && |s| >= 4
    ensures |GroupBytes(s[..4])| == 3
    ensures DecodeSig(s, errcheck) == Prepend(GroupBytes(s[..4]), DecodeSig(s[4..], errcheck))
  {
    ScanData(s, [], errcheck, []);
    assert s + [] == s && [] + s[..4] == s[..4] && s[4..] + [] == s[4..];
    assert ScanGroup(s, errcheck, []) == Group(s[..4], s[4..]);
    DecodeGroup(s, errcheck);
  }

  /** Strict decoding stops at the first invalid byte after data
      characters `p`, having written what the complete groups of `p`
      decode to. */
  lemma {:induction false} StrictStopsAtIllegal(p: seq<byte>, c: byte, t: seq<byte>)
    requires DataChars(p) && !IsValid(c)
    ensures DecodeSig(p + [c] + t, true) == Decoded(DecodeSig(p, false).out, IllegalCharacter(c))
    decreases |p|
  {
    var u := [c] + t;
    assert p + [c] + t == p + u;
    ScanData(p, u, true, []);
    ScanData(p, [], false, []);
    assert p + [] == p;
    if |p| >= 4 {
      assert [] + p[..4] == p[..4];
      assert |GroupBytes(p[..4])| == 3;
      assert p[4..] + [] == p[4..];
      StrictStopsAtIllegal(p[4..], c, t);
      assert p[4..] + [c] + t == p[4..] + u;
    }
  }
}
