/** The string helpers of base64.c: `getlen`, `strip_crlf`, and the two
    buffer-size macros of include/base64.h, set against the codec of
    b64.c. */
module Base64 {
  import opened CTypes
  import opened B64

  const LF: byte := 10
  const CR: byte := 13

  // ---------------------------------------------------------------
  // getlen
  // ---------------------------------------------------------------

  /** The bytes of a NUL-terminated buffer before its first NUL. */
  function CStr(s: seq<byte>): seq<byte>
  {
    if s == [] || s[0] == 0 then [] else [s[0]] + CStr(s[1..])
  }

  /** `CStr(s)` is a NUL-free prefix of `s`, followed in `s` by a NUL
      when there is one. */
  lemma {:induction false} CStrIs(s: seq<byte>)
    ensures |CStr(s)| <= |s| && CStr(s) == s[..|CStr(s)|]
    ensures 0 !in CStr(s)
    ensures 0 in s <==> |CStr(s)| < |s|
    ensures 0 in s ==> s[|CStr(s)|] == 0
  {
    if s != [] && s[0] != 0 {
      CStrIs(s[1..]);
      assert s == [s[0]] + s[1..];
    }
  }

  /** `getlen` (base64.c:20-25): the index of the first NUL. */
  method GetLen(s: seq<byte>) returns (n: nat)
    requires 0 in s
    ensures n < |s| && s[n] == 0
    ensures forall k :: 0 <= k < n ==> s[k] != 0
    ensures n == |CStr(s)|
  {
    CStrIs(s);
    n := 0;
    while s[n] != 0
      invariant n <= |CStr(s)|
      invariant forall k :: 0 <= k < n ==> s[k] != 0
      decreases |CStr(s)| - n
    {
      n := n + 1;
    }
  }

  // ---------------------------------------------------------------
  // strip_crlf
  // ---------------------------------------------------------------

  predicate NoCrlf(s: seq<byte>)
  {
    forall k :: 0 <= k < |s| ==> s[k] != LF && s[k] != CR
  }

  /** The bytes of `s` other than line feed (10) and carriage return
      (13), in their order. */
  function StripSpec(s: seq<byte>): seq<byte>
  {
    if s == [] then []
    else
      var c := s[|s| - 1];
      StripSpec(s[..|s| - 1]) + (if c == LF || c == CR then [] else [c])
  }

  /** Stripping never lengthens the input, and keeps its length exactly
      when there is nothing to strip. */
  lemma {:induction false} StripLength(s: seq<byte>)
    ensures |StripSpec(s)| <= |s|
    ensures |StripSpec(s)| == |s| <==> NoCrlf(s)
  {
    if s != [] {
      var p := s[..|s| - 1];
      StripLength(p);
      if NoCrlf(s) {
        assert NoCrlf(p) by {
          forall k | 0 <= k < |p| ensures p[k] != LF && p[k] != CR {
            assert p[k] == s[k];
          }
        }
      }
      if |StripSpec(s)| == |s| {
        forall k | 0 <= k < |s| ensures s[k] != LF && s[k] != CR {
          if k < |p| {
            assert p[k] == s[k];
          }
        }
      }
    }
  }

  /** No line feed or carriage return survives. */
  lemma {:induction false} StripClean(s: seq<byte>)
    ensures NoCrlf(StripSpec(s))
  {
    if s != [] {
      StripClean(s[..|s| - 1]);
    }
  }

  /** Stripping a CR/LF-free string changes nothing. */
  lemma {:induction false} StripIdentity(s: seq<byte>)
    requires NoCrlf(s)
    ensures StripSpec(s) == s
  {
    if s != [] {
      var p := s[..|s| - 1];
      assert NoCrlf(p) by {
        forall k | 0 <= k < |p| ensures p[k] != LF && p[k] != CR {
          assert p[k] == s[k];
        }
      }
      StripIdentity(p);
      assert s == p + [s[|s| - 1]];
    }
  }

  /** Stripping twice is stripping once. */
  lemma StripIdempotent(s: seq<byte>)
    ensures StripSpec(StripSpec(s)) == StripSpec(s)
  {
    StripClean(s);
    StripIdentity(StripSpec(s));
  }

  /** Stripping works piece by piece, so the kept bytes stay in order. */
  lemma {:induction false} StripAppend(a: seq<byte>, b: seq<byte>)
    ensures StripSpec(a + b) == StripSpec(a) + StripSpec(b)
    decreases |b|
  {
    if b == [] {
      assert a + b == a;
    } else {
      var q := b[..|b| - 1];
      StripAppend(a, q);
      assert (a + b)[..|a + b| - 1] == a + q;
    }
  }

  /** Every byte other than CR and LF occurs as often in the result as
      in the input. */
  lemma {:induction false} StripKeeps(s: seq<byte>, c: byte)
    requires c != LF && c != CR
    ensures multiset(StripSpec(s))[c] == multiset(s)[c]
  {
    if s != [] {
      var p := s[..|s| - 1];
      StripKeeps(p, c);
      assert s == p + [s[|s| - 1]];
    }
  }

  /** `strip_crlf` as written (base64.c:29-39) allocates `strlen(in)`
      bytes and writes the NUL at `out[i]`, where `i` is the number of
      bytes kept: that write is inside the allocation exactly when this
      holds. */
  predicate StripCrlfNulFits(s: seq<byte>)
  {
    |StripSpec(s)| < |s|
  }

  /** The NUL lands one byte past the allocation exactly when the input
      has no CR or LF, the empty input included. */
  lemma StripCrlfOverflow(s: seq<byte>)
    ensures !StripCrlfNulFits(s) <==> NoCrlf(s)
  {
    StripLength(s);
  }

  /** "ab" overflows; "a\n" does not. */
  lemma StripCrlfOverflowExample()
    ensures !StripCrlfNulFits([97, 98])
    ensures StripCrlfNulFits([97, LF])
  {
    StripCrlfOverflow([97, 98]);
    assert StripSpec([97, LF]) == [97] by {
      assert [97, LF][..1] == [97];
      assert [97][..0] == [];
    }
  }

  /** `strip_crlf` (base64.c:27-42) with the allocation one byte larger
      than `strlen(in)`, so that the terminator always fits. */
  method StripCrlf(s: seq<byte>) returns (out: array<byte>)
    requires 0 in s
    ensures fresh(out)
    ensures var t := StripSpec(CStr(s));
      out.Length == |CStr(s)| + 1 && |t| <= |CStr(s)| && out[..|t|] == t && out[|t|] == 0
  {
    var outlen := GetLen(s);
    CStrIs(s);
    out := new byte[outlen + 1];
    var i := 0;
    var p := 0;
    while s[p] != 0
      invariant p <= outlen
      invariant i == |StripSpec(s[..p])| && i <= p
      invariant out[..i] == StripSpec(s[..p])
      decreases outlen - p
    {
      StripLength(s[..p]);
      var c := s[p];
      assert s[..p + 1][..p] == s[..p];
      if c != 10 && c != 13 {
        out[i] := c;
        i := i + 1;
      }
      p := p + 1;
    }
    assert s[..p] == CStr(s);
    StripLength(s[..p]);
    out[i] := 0;
  }

  // ---------------------------------------------------------------
  // The size macros, against the codec of b64.c
  // ---------------------------------------------------------------

  /** `B64ENCODE_OUT_SAFESIZE(x)` (include/base64.h:18). */
  function EncodeSafeSize(x: nat): nat
  {
    ((x + 3 - 1) / 3) * 4 + 1
  }

  /** `B64DECODE_OUT_SAFESIZE(x)` (include/base64.h:19). */
  function DecodeSafeSize(x: nat): nat
  {
    (x * 3) / 4
  }

  /** The encode size is the encoded text of `b` plus its terminator. */
  lemma EncodeSafeSizeFits(b: seq<byte>)
    ensures EncodeSafeSize(|b|) == |EncodeChars(b)| + 1
  {
    EncodeLength(b);
  }

  lemma {:induction false} SigLength(s: seq<byte>)
    ensures |Sig(s)| <= |s|
  {
    if s != [] {
      SigLength(s[1..]);
    }
  }

  /** Each group of four significant characters yields at most three
      bytes. */
  lemma {:induction false} DecodeSigLength(s: seq<byte>, errcheck: bool)
    ensures |DecodeSig(s, errcheck).out| <= 3 * (|s| / 4)
    decreases |s|
  {
    match ScanGroup(s, errcheck, [])
    case EndOfInput =>
    case Failed(_) =>
    case Group(a, rest) =>
      if |GroupBytes(a)| == 3 {
        DecodeSigLength(rest, errcheck);
        QuarterStep(|rest|, |s|);
      }
  }

  lemma QuarterStep(r: nat, n: nat)
    requires r + 4 <= n
    ensures 3 * (r / 4) + 3 <= 3 * (n / 4)
  {
    assert r / 4 + 1 <= n / 4;
  }

  /** The decode size bounds what decoding `data` writes, whatever it
      holds and however decoding ends. */
  lemma DecodeSafeSizeFits(data: seq<byte>, errcheck: bool)
    ensures |DecodeSpec(data, errcheck).out| <= DecodeSafeSize(|data|)
  {
    SigLength(data);
    DecodeSigLength(Sig(data), errcheck);
  }
}
