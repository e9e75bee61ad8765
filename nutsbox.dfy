/** The string utilities of nutsbox.c. A C string argument that is only
    read is modelled by its characters before the terminating NUL (a
    `seq<char>` without NUL); a string the function walks or changes in
    place is an array with an offset; every `malloc`'d result is a fresh
    array holding the characters and the terminating NUL. */
module Nutsbox {
  import opened CTypes

  const NUL: char := '\0'

  /** A C string's characters: no NUL among them. */
  predicate NoNul(s: seq<char>)
  {
    forall k :: 0 <= k < |s| ==> s[k] != NUL
  }

  /** `isspace` in the C locale: space, and tab through carriage return. */
  predicate IsSpace(c: char)
  {
    c == ' ' || 9 <= c as int <= 13
  }

  /** `isdigit`. */
  predicate IsDigit(c: char)
  {
    '0' <= c <= '9'
  }

  /** `toupper` in the C locale. */
  function ToUpper(c: char): char
  {
    if 'a' <= c <= 'z' then (c as int - 32) as char else c
  }

  /** `tolower` in the C locale. */
  function ToLower(c: char): char
  {
    if 'A' <= c <= 'Z' then (c as int + 32) as char else c
  }

  lemma CaseRoundTrip(c: char)
    ensures 'a' <= c <= 'z' ==> ToLower(ToUpper(c)) == c && ToUpper(c) != c
    ensures 'A' <= c <= 'Z' ==> ToUpper(ToLower(c)) == c && ToLower(c) != c
    ensures !('a' <= c <= 'z') && !('A' <= c <= 'Z') ==> ToUpper(c) == c && ToLower(c) == c
    ensures ToUpper(ToUpper(c)) == ToUpper(c) && ToLower(ToLower(c)) == ToLower(c)
  {
  }

  // ---------------------------------------------------------------
  // NUL-terminated buffers
  // ---------------------------------------------------------------

  /** The C string that starts at `off` in the buffer `s`: the
      characters up to the first NUL, or to the end of the buffer. */
  function CStrAt(s: seq<char>, off: nat): seq<char>
    decreases |s| - off
  {
    if off >= |s| || s[off] == NUL then [] else [s[off]] + CStrAt(s, off + 1)
  }

  /** The buffer holds a NUL at or after `off`. */
  predicate Terminated(s: seq<char>, off: nat)
  {
    exists k :: off <= k < |s| && s[k] == NUL
  }

  /** A C string is the run of characters up to its terminator. */
  lemma {:induction false} CStrAtIs(s: seq<char>, off: nat)
    requires off <= |s|
    ensures var c := CStrAt(s, off);
      off + |c| <= |s| && c == s[off..off + |c|] && NoNul(c) &&
      (Terminated(s, off) ==> off + |c| < |s| && s[off + |c|] == NUL)
    decreases |s| - off
  {
    if off < |s| && s[off] != NUL {
      CStrAtIs(s, off + 1);
      if Terminated(s, off) {
        var k :| off <= k < |s| && s[k] == NUL;
        assert off + 1 <= k;
      }
    }
  }

  /** A NUL right after the characters `c` ends the string there. */
  lemma {:induction false} CStrAtOf(s: seq<char>, off: nat, c: seq<char>)
    requires NoNul(c) && off + |c| < |s| && s[off..off + |c|] == c && s[off + |c|] == NUL
    ensures CStrAt(s, off) == c
    decreases |c|
  {
    if c != [] {
      assert s[off] == c[0];
      assert s[off + 1..off + 1 + |c[1..]|] == c[1..];
      CStrAtOf(s, off + 1, c[1..]);
    }
  }

  // ---------------------------------------------------------------
  // bytox
  // ---------------------------------------------------------------

  /** The lowercase hex digit of a nibble, as "%x" prints it. */
  function HexDigit(n: int): char
    requires 0 <= n < 16
  {
    "0123456789abcdef"[n]
  }

  /** Two lowercase hex digits per byte, high nibble first. */
  function ToHex(b: seq<byte>): seq<char>
  {
    if b == [] then [] else [HexDigit(b[0] / 16), HexDigit(b[0] % 16)] + ToHex(b[1..])
  }

  lemma {:induction false} ToHexSnoc(b: seq<byte>, x: byte)
    ensures ToHex(b + [x]) == ToHex(b) + [HexDigit(x / 16), HexDigit(x % 16)]
    decreases |b|
  {
    if b == [] {
      assert [] + [x] == [x];
    } else {
      ToHexSnoc(b[1..], x);
      assert (b + [x])[1..] == b[1..] + [x];
    }
  }

  /** Two characters per byte, none of them NUL. */
  lemma {:induction false} ToHexLength(b: seq<byte>)
    ensures |ToHex(b)| == 2 * |b| && NoNul(ToHex(b))
    decreases |b|
  {
    if b != [] {
      ToHexLength(b[1..]);
      HexDigitNotNul(b[0] / 16);
      HexDigitNotNul(b[0] % 16);
    }
  }

  lemma HexDigitNotNul(n: int)
    requires 0 <= n < 16
    ensures HexDigit(n) != NUL
  {
  }

  /** Characters 2i and 2i+1 are the hex digits of byte i's high and
      low nibble. */
  lemma {:induction false} ToHexAt(b: seq<byte>, i: nat)
    requires i < |b|
    ensures |ToHex(b)| == 2 * |b|
    ensures ToHex(b)[2 * i] == HexDigit(b[i] / 16) && ToHex(b)[2 * i + 1] == HexDigit(b[i] % 16)
    decreases i
  {
    ToHexLength(b);
    if i > 0 {
      ToHexAt(b[1..], i - 1);
      assert b[1..][i - 1] == b[i];
    }
  }

  /** The loop of `bytox` (nutsbox.c:70-73) as written, on the block
      `str` that `malloc` returned, whose contents are whatever was there:
      each `sprintf` stores two hex digits and a NUL after them. With
      `size` 0 nothing is stored at all. */
  method BytoxLoop(bytes: seq<byte>, size: int, str: array<char>)
    requires 0 <= size <= |bytes| && str.Length == 2 * size + 1
    modifies str
    ensures size == 0 ==> str[..] == old(str[..])
    ensures size > 0 ==> str[..] == ToHex(bytes[..size]) + [NUL]
  {
    if size == 0 {
      return;
    }
    for i := 0 to size
      invariant str[..2 * i] == ToHex(bytes[..i])
      invariant i > 0 ==> str[2 * i] == NUL
    {
      var x := bytes[i];
      ghost var before := str[..];
      str[2 * i] := HexDigit(x / 16);
      str[2 * i + 1] := HexDigit(x % 16);
      str[2 * i + 2] := NUL;
      HexStep(before, str[..], bytes, i);
    }
    assert str[..] == str[..2 * size] + [str[2 * size]];
  }

  /** One `sprintf(p, "%02x", b)` of the loop extends the hex text by the
      two digits of `b` and leaves a NUL after them. */
  lemma HexStep(before: seq<char>, after: seq<char>, bytes: seq<byte>, i: nat)
    requires i < |bytes| && 2 * i + 2 < |before|
    requires before[..2 * i] == ToHex(bytes[..i])
    requires after == before[2 * i := HexDigit(bytes[i] / 16)][2 * i + 1 := HexDigit(bytes[i] % 16)][2 * i + 2 := NUL]
    ensures after[..2 * (i + 1)] == ToHex(bytes[..i + 1]) && after[2 * (i + 1)] == NUL
  {
    assert after[..2 * (i + 1)] == before[..2 * i] + [HexDigit(bytes[i] / 16), HexDigit(bytes[i] % 16)];
    ToHexSnoc(bytes[..i], bytes[i]);
    assert bytes[..i + 1] == bytes[..i] + [bytes[i]];
  }

  /** As written, `bytox(b, 0)` returns the one-byte block unwritten: when
      that byte is not already NUL, the result is not a C string. */
  method BytoxEmptyUnterminated(bytes: seq<byte>, str: array<char>)
    requires str.Length == 1 && str[0] != NUL
    modifies str
    ensures !Terminated(str[..], 0)
  {
    BytoxLoop(bytes, 0, str);
  }

  /** `bytox` (nutsbox.c:66-75) corrected: the lowercase hex text of the
      first `size` bytes, NUL-terminated. The buffer is NUL-terminated
      before the loop, so that the result is a string also for `size` 0. */
  method Bytox(bytes: seq<byte>, size: int) returns (str: array<char>)
    requires 0 <= size <= |bytes|
    ensures fresh(str) && str.Length == 2 * size + 1
    ensures str[..2 * size] == ToHex(bytes[..size]) && str[2 * size] == NUL
    ensures CStrAt(str[..], 0) == ToHex(bytes[..size])
  {
    str := new char[2 * size + 1];
    str[0] := NUL;
    BytoxLoop(bytes, size, str);
    ToHexLength(bytes[..size]);
    if size > 0 {
      assert str[..2 * size] == (ToHex(bytes[..size]) + [NUL])[..2 * size];
    }
    CStrAtOf(str[..], 0, ToHex(bytes[..size]));
  }

  // ---------------------------------------------------------------
  // isnum, isthere
  // ---------------------------------------------------------------

  /** `isnum` (nutsbox.c:86-93): the counter stops at the first
      non-digit; the string is a number iff that is its end. The empty
      string counts as a number. */
  method Isnum(snum: seq<char>) returns (b: bool)
    requires NoNul(snum)
    ensures b <==> forall k :: 0 <= k < |snum| ==> IsDigit(snum[k])
  {
    var i := 0;
    while i < |snum| && IsDigit(snum[i])
      invariant 0 <= i <= |snum|
      invariant forall k :: 0 <= k < i ==> IsDigit(snum[k])
    {
      i := i + 1;
    }
    b := i == |snum|;
  }

  /** `isthere` (nutsbox.c:368-376): true iff EVERY character of `r`
      occurs in `s`. */
  method Isthere(s: seq<char>, r: seq<char>) returns (b: bool)
    requires NoNul(s) && NoNul(r)
    ensures b <==> forall k :: 0 <= k < |r| ==> r[k] in s
  {
    for i := 0 to |r|
      invariant forall k :: 0 <= k < i ==> r[k] in s
    {
      var c := r[i];
      if c !in s {
        return false;
      }
    }
    return true;
  }

  // ---------------------------------------------------------------
  // pullstr
  // ---------------------------------------------------------------

  /** The indices of `s1` that `pullstr` (nutsbox.c:133-159) reads, as
      written, for a string of length `n`: None when one of its two
      guards returns NULL. Both guards compare an `int` with the `size_t`
      result of `strlen`, so a negative argument also returns NULL.
      Otherwise it copies `*(s1 + (pos - 1))` while advancing `s1`, that
      is the indices pos-1, ..., pos+length-2. */
  function PullstrReads(n: nat, pos: int, length: int): Option<seq<int>>
  {
    if pos < 0 || pos >= n then None
    else if length < 0 || length >= n then None
    else Some(seq(length, k => pos - 1 + k))
  }

  /** The guards let through reads outside the string and its NUL:
      `pullstr("abcde", 4, 4)` reads index 6, and `pullstr("abcde", 0, 2)`
      reads index -1. */
  lemma PullstrOutOfBounds()
    ensures PullstrReads(5, 4, 4) == Some([3, 4, 5, 6])
    ensures PullstrReads(5, 0, 2) == Some([-1, 0])
  {
    assert seq(4, k => 4 - 1 + k) == [3, 4, 5, 6];
    assert seq(2, k => 0 - 1 + k) == [-1, 0];
  }

  /** Exactly when the guards admit an out-of-bounds read. */
  lemma PullstrReadsInBounds(n: nat, pos: int, length: int)
    requires PullstrReads(n, pos, length).Some?
    ensures (forall k :: 0 <= k < length ==> 0 <= PullstrReads(n, pos, length).value[k] <= n)
            <==> length == 0 || (pos >= 1 && pos + length - 2 <= n)
  {
    var r := PullstrReads(n, pos, length).value;
    if length > 0 && (forall k :: 0 <= k < length ==> 0 <= r[k] <= n) {
      assert r[0] == pos - 1 && r[length - 1] == pos + length - 2;
    }
  }

  /** The guard `pullstr` evidently intends: `pos` counts from 1, and the
      `length` characters from position `pos` lie inside the string. */
  predicate PullstrAdmits(n: nat, pos: int, length: int)
  {
    1 <= pos < n && 0 <= length < n && pos - 1 + length <= n
  }

  /** `pullstr` with the bounds check it evidently intends: NULL for an
      out-of-range request, otherwise a fresh string of the `length`
      characters starting at position `pos` (counted from 1). */
  method Pullstr(s1: seq<char>, pos: int, length: int) returns (r: Option<array<char>>)
    requires NoNul(s1)
    ensures r.None? <==> !PullstrAdmits(|s1|, pos, length)
    ensures r.Some? ==>
      fresh(r.value) && r.value.Length == length + 1 &&
      r.value[..length] == s1[pos - 1..pos - 1 + length] && r.value[length] == NUL &&
      CStrAt(r.value[..], 0) == s1[pos - 1..pos - 1 + length]
  {
    if pos >= |s1| || length >= |s1| || pos < 1 || length < 0 || pos - 1 + length > |s1| {
      return None;
    }
    var p := new char[length + 1];
    var k := 0;
    while k < length
      invariant 0 <= k <= length
      invariant p[..k] == s1[pos - 1..pos - 1 + k]
    {
      p[k] := s1[pos - 1 + k];
      k := k + 1;
    }
    p[length] := NUL;
    CStrAtOf(p[..], 0, s1[pos - 1..pos - 1 + length]);
    return Some(p);
  }

  /** The corrected guard rules out every out-of-bounds read, and on the
      requests it admits `pullstr` as written reads the same indices. */
  lemma PullstrAdmitsInBounds(n: nat, pos: int, length: int)
    requires PullstrAdmits(n, pos, length)
    ensures PullstrReads(n, pos, length) == Some(seq(length, k => pos - 1 + k))
    ensures forall k :: 0 <= k < length ==> 0 <= PullstrReads(n, pos, length).value[k] < n
  {
  }

  // ---------------------------------------------------------------
  // concat, ucase, lcase, left
  // ---------------------------------------------------------------

  /** `concat` (nutsbox.c:173-197): a fresh string holding `s1` then `s2`. */
  method Concat(s1: seq<char>, s2: seq<char>) returns (r: array<char>)
    requires NoNul(s1) && NoNul(s2)
    ensures fresh(r) && r.Length == |s1| + |s2| + 1
    ensures r[..|s1| + |s2|] == s1 + s2 && r[|s1| + |s2|] == NUL
    ensures CStrAt(r[..], 0) == s1 + s2
  {
    r := new char[|s1| + |s2| + 1];
    var p := 0;
    while p < |s1|
      invariant 0 <= p <= |s1|
      invariant r[..p] == s1[..p]
    {
      r[p] := s1[p];
      p := p + 1;
    }
    var q := 0;
    while q < |s2|
      invariant 0 <= q <= |s2| && p == |s1| + q
      invariant r[..p] == s1 + s2[..q]
    {
      r[p] := s2[q];
      p := p + 1;
      q := q + 1;
    }
    r[p] := NUL;
    CStrAtOf(r[..], 0, s1 + s2);
  }

  /** `ucase` (nutsbox.c:277-292): a fresh copy with every character
      passed through `toupper`. */
  method UCase(s: seq<char>) returns (r: array<char>)
    requires NoNul(s)
    ensures fresh(r) && r.Length == |s| + 1 && r[|s|] == NUL
    ensures forall k :: 0 <= k < |s| ==> r[k] == ToUpper(s[k])
  {
    r := new char[|s| + 1];
    for p := 0 to |s|
      invariant forall k :: 0 <= k < p ==> r[k] == ToUpper(s[k])
    {
      r[p] := ToUpper(s[p]);
    }
    r[|s|] := NUL;
  }

  /** `lcase` (nutsbox.c:304-319): a fresh copy with every character
      passed through `tolower`. */
  method LCase(s: seq<char>) returns (r: array<char>)
    requires NoNul(s)
    ensures fresh(r) && r.Length == |s| + 1 && r[|s|] == NUL
    ensures forall k :: 0 <= k < |s| ==> r[k] == ToLower(s[k])
  {
    r := new char[|s| + 1];
    for p := 0 to |s|
      invariant forall k :: 0 <= k < p ==> r[k] == ToLower(s[k])
    {
      r[p] := ToLower(s[p]);
    }
    r[|s|] := NUL;
  }

  /** The first `max` characters of `s`, or all of it when it is shorter. */
  function LeftOf(s: seq<char>, max: int): (r: seq<char>)
    requires max >= 0
    ensures |r| == Min(max, |s|) && r == s[..|r|]
  {
    if max >= |s| then s else s[..max]
  }

  /** The text `left` keeps is all of `s` exactly when `max` reaches its
      length; cutting again at the same `max` changes nothing; and what
      follows the first `max` characters never matters. */
  lemma LeftOfIs(s: seq<char>, t: seq<char>, max: int)
    requires max >= 0
    ensures LeftOf(s, max) == s <==> max >= |s|
    ensures LeftOf(LeftOf(s, max), max) == LeftOf(s, max)
    ensures max <= |s| ==> LeftOf(s + t, max) == LeftOf(s, max)
  {
    if max <= |s| {
      assert (s + t)[..max] == s[..max];
    }
  }

  /** `strncpy(r, s, |s|)`: the characters of `s`, without a terminator,
      at the start of `r`; the rest of `r` is untouched. */
  method CopyChars(r: array<char>, s: seq<char>)
    requires |s| <= r.Length
    modifies r
    ensures r[..|s|] == s && r[|s|..] == old(r[|s|..])
  {
    forall k | 0 <= k < |s| {
      r[k] := s[k];
    }
  }

  /** `left` (nutsbox.c:408-431). A buffer of strlen(s)+1 characters gets
      all of `s` (with its NUL when `max` >= strlen(s)); otherwise a NUL
      goes at index `max`. In the second case the last byte of the buffer
      is never written. A negative `max` would write before the buffer. */
  method Left(s: seq<char>, max: int) returns (r: array<char>)
    requires NoNul(s) && max >= 0
    ensures fresh(r) && r.Length == |s| + 1
    ensures max >= |s| ==> r[..] == s + [NUL]
    ensures max < |s| ==> r[..max] == s[..max] && r[max] == NUL && r[max + 1..|s|] == s[max + 1..]
    ensures CStrAt(r[..], 0) == LeftOf(s, max)
  {
    var len := |s|;
    r := new char[len + 1];
    CopyChars(r, s);
    if max >= len {
      r[len] := NUL;
      assert r[..] == r[..len] + [r[len]];
    } else {
      ghost var copied := r[..];
      r[max] := NUL;
      assert r[..max] == copied[..max];
      assert r[max + 1..len] == copied[max + 1..len];
    }
    CStrAtOf(r[..], 0, LeftOf(s, max));
  }

  // ---------------------------------------------------------------
  // ltrim, rtrim, trim, pcase
  // ---------------------------------------------------------------

  /** `s` without its leading white space. */
  function TrimLeft(s: seq<char>): seq<char>
  {
    if s != [] && IsSpace(s[0]) then TrimLeft(s[1..]) else s
  }

  /** `s` without its trailing white space. */
  function TrimRight(s: seq<char>): seq<char>
  {
    if s != [] && IsSpace(s[|s| - 1]) then TrimRight(s[..|s| - 1]) else s
  }

  /** `TrimLeft` removes a prefix made only of white space, and leaves a
      string that is empty or starts with a non-space character. */
  lemma {:induction false} TrimLeftIs(s: seq<char>)
    ensures var t := TrimLeft(s);
      |t| <= |s| && t == s[|s| - |t|..] &&
      (forall k :: 0 <= k < |s| - |t| ==> IsSpace(s[k])) &&
      (t != [] ==> !IsSpace(t[0]))
    decreases |s|
  {
    if s != [] && IsSpace(s[0]) {
      TrimLeftIs(s[1..]);
      var t := TrimLeft(s);
      assert s[1..][|s| - 1 - |t|..] == s[|s| - |t|..];
      forall k | 0 <= k < |s| - |t|
        ensures IsSpace(s[k])
      {
        if k > 0 {
          assert s[k] == s[1..][k - 1];
        }
      }
    }
  }

  /** `TrimRight` removes a suffix made only of white space, and leaves a
      string that is empty or ends with a non-space character. */
  lemma {:induction false} TrimRightIs(s: seq<char>)
    ensures var t := TrimRight(s);
      |t| <= |s| && t == s[..|t|] &&
      (forall k :: |t| <= k < |s| ==> IsSpace(s[k])) &&
      (t != [] ==> !IsSpace(t[|t| - 1]))
    decreases |s|
  {
    if s != [] && IsSpace(s[|s| - 1]) {
      TrimRightIs(s[..|s| - 1]);
    }
  }

  /** A string is blank when it is non-empty and all white space: the
      input `rtrim` walks off the front of. */
  predicate Blank(s: seq<char>)
  {
    s != [] && forall k :: 0 <= k < |s| ==> IsSpace(s[k])
  }

  /** `ltrim` (nutsbox.c:210-218): NULL stays NULL; otherwise the
      position of the first non-space character. */
  method LTrim(s: array?<char>, off: nat) returns (p: Option<nat>)
    requires s != null ==> Terminated(s[..], off)
    ensures s == null <==> p.None?
    ensures p.Some? ==> off <= p.value && CStrAt(s[..], p.value) == TrimLeft(CStrAt(s[..], off))
    ensures p.Some? ==> p.value + |TrimLeft(CStrAt(s[..], off))| == off + |CStrAt(s[..], off)|
  {
    if s == null {
      return None;
    }
    CStrAtIs(s[..], off);
    ghost var str := CStrAt(s[..], off);
    var q := off;
    if s[q] == NUL {
      return Some(q);
    }
    while IsSpace(s[q])
      invariant off <= q <= off + |str|
      invariant CStrAt(s[..], q) == str[q - off..]
      invariant TrimLeft(str) == TrimLeft(str[q - off..])
      decreases off + |str| - q
    {
      assert str[q - off..][1..] == str[q + 1 - off..];
      q := q + 1;
    }
    return Some(q);
  }

  /** `rtrim` (nutsbox.c:231-246): NULL stays NULL and the empty string is
      returned as it is; otherwise a NUL is written in place right after
      the last non-space character. The backwards scan needs a
      non-space character to stop at, so a blank string is excluded. */
  method RTrim(s: array?<char>, off: nat) returns (p: Option<nat>)
    requires s != null ==> Terminated(s[..], off) && !Blank(CStrAt(s[..], off))
    modifies s
    ensures s == null <==> p.None?
    ensures p.Some? ==> p.value == off
    ensures s != null ==> Terminated(s[..], off)
    ensures s != null ==>
      var old_str := old(CStrAt(s[..], off));
      var t := TrimRight(old_str);
      CStrAt(s[..], off) == t &&
      (old_str == [] ==> s[..] == old(s[..])) &&
      (old_str != [] ==> off + |t| < s.Length && s[..] == old(s[..])[off + |t| := NUL])
  {
    if s == null {
      return None;
    }
    CStrAtIs(s[..], off);
    ghost var str := CStrAt(s[..], off);
    ghost var s0 := s[..];
    if s[off] == NUL {
      return Some(off);
    }
    var q := LastNonSpace(s, off, |CStrAt(s[..], off)|, str);
    s[q + 1] := NUL;
    assert TrimRight(str) == str[..q + 1 - off];
    assert s[off..off + (q + 1 - off)] == s0[off..q + 1];
    CStrAtOf(s[..], off, str[..q + 1 - off]);
    return Some(off);
  }

  /** The backwards scan of `rtrim` (`while (isspace(*--p))`): from the
      end of a string that is not blank, the position of its last
      non-space character. */
  method LastNonSpace(s: array<char>, off: nat, len: nat, ghost str: seq<char>) returns (q: nat)
    requires len == |str| && str != [] && !Blank(str)
    requires off + |str| <= s.Length && str == s[off..off + |str|]
    ensures off <= q < off + |str|
    ensures TrimRight(str) == str[..q + 1 - off]
  {
    q := off + len - 1;
    assert str[..q + 1 - off] == str;
    ghost var k :| 0 <= k < |str| && !IsSpace(str[k]);
    assert s[off + k] == str[k];
    while IsSpace(s[q])
      invariant off + k <= q < off + |str|
      invariant TrimRight(str) == TrimRight(str[..q + 1 - off])
      decreases q
    {
      assert str[..q + 1 - off][..q - off] == str[..q - off];
      q := q - 1;
    }
    assert str[..q + 1 - off][q - off] == s[q];
  }

  /** `s` without leading and trailing white space. */
  function TrimOf(s: seq<char>): seq<char>
  {
    TrimRight(TrimLeft(s))
  }

  /** A trimmed string has no white space at either end, and `trim`
      does nothing to a string that has none. */
  lemma TrimOfIs(s: seq<char>)
    ensures var t := TrimOf(s);
      (t != [] ==> !IsSpace(t[0]) && !IsSpace(t[|t| - 1])) &&
      TrimOf(t) == t &&
      (s == [] || (!IsSpace(s[0]) && !IsSpace(s[|s| - 1])) ==> t == s)
  {
    var l := TrimLeft(s);
    TrimLeftIs(s);
    TrimRightIs(l);
    var t := TrimRight(l);
    if t != [] {
      assert t[0] == l[0];
      TrimLeftIs(t);
      TrimRightIs(t);
      assert TrimLeft(t) == t;
    }
  }

  /** `trim` (nutsbox.c:259-265): NULL and the empty string are returned
      as they are; otherwise `rtrim(ltrim(s))`, which moves the start
      past the leading white space and writes a NUL after the last
      non-space character. */
  method Trim(s: array?<char>, off: nat) returns (p: Option<nat>)
    requires s != null ==> Terminated(s[..], off)
    modifies s
    ensures s == null <==> p.None?
    ensures p.Some? ==> off <= p.value && CStrAt(s[..], p.value) == TrimOf(old(CStrAt(s[..], off)))
    ensures p.Some? ==> Terminated(s[..], p.value)
    ensures p.Some? ==> var str := old(CStrAt(s[..], off));
      p.value + |TrimLeft(str)| == off + |str|
    ensures p.Some? ==> var t := TrimOf(old(CStrAt(s[..], off)));
      if t == [] then s[..] == old(s[..])
      else p.value + |t| < s.Length && s[..] == old(s[..])[p.value + |t| := NUL]
  {
    if s == null {
      return None;
    }
    if s[off] == NUL {
      return Some(off);
    }
    ghost var str := CStrAt(s[..], off);
    var l := LTrim(s, off);
    CStrAtIs(s[..], off);
    CStrAtIs(s[..], l.value);
    TrimLeftIs(str);
    assert Terminated(s[..], l.value) by {
      assert off + |str| < |s[..]| && s[off + |str|] == NUL;
      assert l.value + |TrimLeft(str)| == off + |str|;
    }
    TrimOfEmpty(str);
    p := RTrim(s, l.value);
  }

  /** Trimming leaves nothing exactly when the left trim does: what is
      left after it starts with a non-space character. */
  lemma TrimOfEmpty(s: seq<char>)
    ensures TrimOf(s) == [] <==> TrimLeft(s) == []
  {
    TrimLeftIs(s);
    TrimRightIs(TrimLeft(s));
    if TrimLeft(s) != [] {
      assert !IsSpace(TrimLeft(s)[0]);
    }
  }

  /** "Propercase": the first character upper-cased, the rest lower-cased. */
  function ProperCase(s: seq<char>): (r: seq<char>)
    ensures |r| == |s|
    ensures forall k :: 0 <= k < |s| ==> r[k] == if k == 0 then ToUpper(s[k]) else ToLower(s[k])
  {
    seq(|s|, k requires 0 <= k < |s| => if k == 0 then ToUpper(s[k]) else ToLower(s[k]))
  }

  /** Proper case without the copy loop: the same letters in the same
      places, the first character not lower-case and the others not
      upper-case. */
  lemma ProperCaseIs(s: seq<char>, r: seq<char>)
    ensures r == ProperCase(s) <==>
      |r| == |s| &&
      (forall k :: 0 <= k < |s| ==> ToLower(r[k]) == ToLower(s[k])) &&
      (r != [] ==> !('a' <= r[0] <= 'z')) &&
      (forall k :: 1 <= k < |r| ==> !('A' <= r[k] <= 'Z'))
  {
    var pc := ProperCase(s);
    forall k | 0 <= k < |s|
      ensures ToLower(pc[k]) == ToLower(s[k])
    {
      CaseRoundTrip(s[k]);
    }
    if |r| == |s| &&
      (forall k :: 0 <= k < |s| ==> ToLower(r[k]) == ToLower(s[k])) &&
      (r != [] ==> !('a' <= r[0] <= 'z')) &&
      (forall k :: 1 <= k < |r| ==> !('A' <= r[k] <= 'Z'))
    {
      forall k | 0 <= k < |s|
        ensures r[k] == pc[k]
      {
        CaseRoundTrip(s[k]);
        CaseRoundTrip(r[k]);
      }
    }
  }

  /** Proper case depends only on the letters, not on their case, and
      applying it twice gives the same text as once. */
  lemma ProperCaseIgnoresCase(s: seq<char>, u: seq<char>)
    requires |s| == |u| && forall k :: 0 <= k < |s| ==> ToLower(s[k]) == ToLower(u[k])
    ensures ProperCase(s) == ProperCase(u)
    ensures ProperCase(ProperCase(s)) == ProperCase(s)
  {
    var r := ProperCase(s);
    ProperCaseIs(s, r);
    ProperCaseIs(u, r);
    ProperCaseIs(r, r);
  }

  /** `pcase` (nutsbox.c:331-354): `trim`s the argument in place, then
      returns a fresh copy of the trimmed text in proper case. The
      caller's buffer keeps the NUL that `rtrim` wrote after the last
      non-space character. */
  method PCase(s: array<char>, off: nat) returns (r: array<char>)
    requires Terminated(s[..], off)
    modifies s
    ensures fresh(r)
    ensures var t := TrimOf(old(CStrAt(s[..], off)));
      r.Length == |t| + 1 && r[..|t|] == ProperCase(t) && r[|t|] == NUL
    ensures var str := old(CStrAt(s[..], off));
      var t := TrimOf(str);
      var q := off + |str| - |TrimLeft(str)|;
      if t == [] then s[..] == old(s[..])
      else off <= q && q + |t| < s.Length && s[..] == old(s[..])[q + |t| := NUL]
  {
    ghost var t := TrimOf(CStrAt(s[..], off));
    var p := Trim(s, off);
    var q := p.value;
    CStrAtIs(s[..], q);
    r := ProperCopy(s, q, |CStrAt(s[..], q)|, t);
  }

  /** The copy loop of `pcase`: the `len` characters at `q`, the first
      passed through `toupper` and the others through `tolower`. */
  method ProperCopy(s: array<char>, q: nat, len: nat, ghost t: seq<char>) returns (r: array<char>)
    requires q + len <= s.Length && len == |t| && t == s[q..q + len]
    ensures fresh(r) && r.Length == len + 1 && r[..len] == ProperCase(t) && r[len] == NUL
  {
    r := new char[len + 1];
    ghost var pc := ProperCase(t);
    var i := 0;
    while i < len
      invariant 0 <= i <= len
      invariant forall k :: 0 <= k < i ==> r[k] == pc[k]
    {
      assert s[q + i] == t[i];
      if i == 0 {
        r[i] := ToUpper(s[q + i]);
      } else {
        r[i] := ToLower(s[q + i]);
      }
      assert r[i] == pc[i];
      i := i + 1;
    }
    r[len] := NUL;
    assert r[..len] == pc;
  }

  // ---------------------------------------------------------------
  // nswap
  // ---------------------------------------------------------------

  /** `nswap` (nutsbox.c:557-566): exchange the first `size` bytes of two
      distinct objects through a temporary copy; nothing else changes. */
  method NSwap(a: array<byte>, b: array<byte>, size: nat)
    requires a != b && size <= a.Length && size <= b.Length
    modifies a, b
    ensures a[..size] == old(b[..size]) && b[..size] == old(a[..size])
    ensures a[size..] == old(a[size..]) && b[size..] == old(b[size..])
  {
    var t := new byte[size];
    forall k | 0 <= k < size {
      t[k] := a[k];
    }
    forall k | 0 <= k < size {
      a[k] := b[k];
    }
    forall k | 0 <= k < size {
      b[k] := t[k];
    }
  }
}
