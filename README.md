# cip core: a Dafny model

This project models the self-contained parts of `cip`, a command-line tool
that hashes, encrypts, base64-encodes and makes UUIDs for strings and files.

- **b64.c**: a base64 stream codec written from first principles. It uses
  the RFC 4648 section 4 alphabet with `=` padding. It runs over a 256-byte
  refill buffer (`inbuf`/`inchar`), a writer that folds lines at 72 columns
  (`ochar`), and a reader that skips whitespace (`insig`). Decoding has a
  strict mode (`errcheck`) and a lenient mode.
- **cipher.c**: hex decoding of the key digest (`ctod`, `ctob`, `ctobx`).
  Also `krypt`: key-size selection, the IV placement and the 512-byte
  read/transform/write loop.
- **nutsbox.c**: string helpers (hex formatting, trimming, case mapping,
  concatenation, substring, membership, swap).
- **uuid4.c**: the xorshift128+ generator step and the version-4 UUID
  template filler (RFC 4122 sections 4.1.1 and 4.4).
- **base64.c**: `getlen` and `strip_crlf`, and the two buffer-size macros
  of include/base64.h.
- **cip.c**: the name-table checks, the argument-vector scans and the error
  table lookup of `die`.

Files are byte sequences. The input file is the sequence `fread` delivers.
The output file is a sequence that only grows. `exit(1)` and `die(n)`
become status or error results, and the output written before them is
kept. The platform line terminator `eol` is a parameter. The decoder's
module-level `errcheck` flag is also a parameter. The CTR cipher is XOR
against a keystream indexed by key, IV and absolute position. The Fortuna
generator is the bytes it returns. md5, siphash and the digest of `gethash`
are uninterpreted functions. Where the code objects are updated in place
(the refill buffer, the line counter, the CTR state, the seed, buffers
written through a pointer), the model uses classes and arrays with
`modifies` clauses. Where the code only computes, the model uses functions
and lemmas.

Where the design description and the code disagree, the model follows the
code:
- A truncated IV on decrypt ends with code 141 ("ctr_encrypt error"). It
  is not a distinct "malformed input" error (cipher.c:110).
- With `errcheck`, decoding only fails on a bad length when the input ends
  inside a group. A `=`-terminated group ends decoding at once, and
  anything after it is ignored.
- `isthere` requires EVERY character of its second argument to occur in
  the first. Its doc comment says "any" (nutsbox.c:360-376).

## Model

| member | source | states |
|---|---|---|
| `B64.DecodeInvertsEncode` | b64.c:141-156 | each of the 64 encode-table entries decodes back to its index, and is neither `=` nor blank |
| `B64.EncodeInvertsDecode` | b64.c:217-243 | the decode table accepts exactly the 64 alphabet characters and `=`, inverts the encode table on the alphabet, and gives 0x80 for every other byte |
| `B64.BuildEncodeTable` | b64.c:141-156 | the index loops put 'A'-'Z' at 0-25, 'a'-'z' at 26-51, '0'-'9' at 52-61, '+' at 62 and '/' at 63 |
| `B64.BuildDecodeTable` | b64.c:217-243 | the index loops build the decode table: 0x80 by default, then the alphabet values and `=` as 0 (entry 255 as invalid) |
| `B64.Reader.constructor` | b64.c:133-139 | the reader starts with nothing consumed, `iocp` at 256, `iolen` 0 and `ateof` false |
| `B64.Reader.Inbuf` | b64.c:68-87 | a refill succeeds iff `ateof` is unset and input remains; then `iocp=0`, `1 <= iolen <= 256`, and the buffer holds the next chunk; otherwise `ateof` is set, and once set nothing changes |
| `B64.Reader.Inchar` | b64.c:104-113 | returns the next unread input byte and consumes exactly one, or EOF with nothing consumed at end of input; after `ateof`, EOF with no state change |
| `B64.Reader.Insig` | b64.c:192-202 | returns a byte > 0x20 or EOF; EOF iff no significant byte remains; the byte returned is the next significant byte of the input |
| `B64.Writer.Ochar` | b64.c:116-124 | writes `eol` before the byte exactly when `linelength >= 72`, then resets the counter; afterwards `1 <= linelength <= 72` |
| `B64.Writer.Puts` | b64.c:188 | appends the terminator without touching the column counter |
| `B64.ColumnIs` | b64.c:116-124 | after k bytes through `ochar` the column is `(k-1) % 72 + 1` |
| `B64.WrappedIsFold` | b64.c:116-124 | the byte-by-byte `ochar` output equals the reference layout: lines of 72 characters joined by `eol` |
| `B64.FoldLinesAtMost` | b64.c:116-124 | no run of significant characters in the folded output is longer than 72 |
| `B64.ReadGroup` | b64.c:161-172 | reads up to 3 bytes in input order, zero-filled; `hiteof` iff fewer than 3, and then the input is exhausted |
| `B64.GroupChars` | b64.c:174-183 | the four output characters equal `EncodeGroup` of the bytes read: shifts and masks of the source, with `=` for the missing positions |
| `B64.PutGroup` | b64.c:185 | four `ochar` calls keep the writer equal to the folded output of everything encoded so far |
| `B64.WriteGroup` | b64.c:174-186 | encoding one non-empty group extends the encoded text by that group's four characters |
| `B64.EncodeOneGroup` | b64.c:159-187 | one pass of the encode loop reads 0 to 3 bytes (`hiteof` iff fewer than 3, and then the input is exhausted) and keeps the output equal to the folded encoding of the consumed prefix |
| `B64.EncodeGroups` | b64.c:159-187 | from a fresh reader and an empty writer, the loop ends with the folded encoding of the whole input in the writer |
| `B64.Encode` | b64.c:127-189 | the output is the folded encoding of the whole input followed by one `eol`, even for empty input |
| `B64.EncodeLength` | b64.c:159-187 | the encoded text has `4 * ceil(n/3)` characters |
| `B64.EncodePadding` | b64.c:174-183 | no `=` for length 3k, two trailing `=` for 3k+1, one for 3k+2; every other character is from the alphabet |
| `B64Properties.EncodeExample` | b64.c:159-187 | "Man " encodes to "TWFuIA==" |
| `B64.ReadValid` | b64.c:249-266 | one group position: returns the next valid significant character; lenient mode skips invalid ones and retries the position; strict mode stops with "Illegal character"; EOF stops with "incomplete" exactly when strict and inside a group |
| `B64.ReadQuad` | b64.c:248-269 | reads four valid characters and their table values, or stops with the status the group scan specifies |
| `B64.GroupOut` | b64.c:271-274 | the bytes the pass hands to `fwrite` are `GroupBytes` of the group: the three packed table values, cut to 1 or 2 bytes when `a[2]` or `a[3]` is `=` |
| `B64.DecodeOneGroup` | b64.c:246-282 | one pass of the decode loop writes `GroupBytes` of the group and continues only when three bytes were produced |
| `B64.Decode` | b64.c:205-284 | output and status equal `DecodeSpec` of the input in the given `errcheck` mode |
| `B64Properties.SigOfFold` | b64.c:192-202 | `insig` sees through the folding: the significant bytes of the folded output are exactly the encoded characters |
| `B64Properties.EncodeCharsValid` | b64.c:174-183 | every character the encoder emits is significant and accepted by the decode table |
| `B64Properties.GroupRoundTrip` | b64.c:271-274 | the decode bit packing `(b0<<2)|(b1>>4)`, `(b1<<4)|(b2>>2)`, `(b2<<6)|b3` undoes the encode packing for 1-, 2- and 3-byte groups |
| `B64Properties.DecodeEncodeChars` | b64.c:245-283 | decoding the encoded characters yields the input with status success, in both modes |
| `B64Properties.RoundTrip` | b64.c:159-283 | decoding the complete `encode` output (folded lines and final `eol`) gives back the input with no error, in strict and lenient mode |
| `B64Properties.EncodeLines` | b64.c:185-188 | no line of the encoder's output exceeds 72 characters |
| `B64Properties.LenientNeverFails` | b64.c:251-265 | without `errcheck` decoding never ends with an error |
| `B64Properties.LenientIgnoresInvalid` | b64.c:258-266 | without `errcheck` decoding behaves as if every invalid byte were removed from the input |
| `B64Properties.StrictOnData` | b64.c:251-256 | on pure data characters, strict decoding writes what lenient does and fails as incomplete iff the length is not a multiple of 4 |
| `B64Properties.StrictStopsAtIllegal` | b64.c:258-262 | strict decoding stops at the first invalid byte with "Illegal character", having written the complete groups before it |
| `Base64.CStrIs` | base64.c:20-25 | the string before the first NUL is a NUL-free prefix followed by a NUL when there is one |
| `Base64.GetLen` | base64.c:20-25 | returns the index of the first NUL |
| `Base64.StripLength` | base64.c:32-39 | stripping never lengthens, and keeps the length iff there is no CR or LF |
| `Base64.StripClean` | base64.c:32-39 | no byte 10 or 13 survives stripping |
| `Base64.StripIdentity` | base64.c:32-39 | a CR/LF-free string is returned unchanged |
| `Base64.StripIdempotent` | base64.c:32-39 | stripping twice equals stripping once |
| `Base64.StripAppend` | base64.c:32-39 | stripping works piece by piece, so kept bytes stay in order |
| `Base64.StripKeeps` | base64.c:32-39 | every byte other than CR/LF occurs as often in the result as in the input |
| `Base64.StripCrlfOverflow` | base64.c:29-39 | as written, the terminator lands outside the `strlen(in)`-byte allocation iff the input has no CR or LF |
| `Base64.StripCrlfOverflowExample` | base64.c:29-39 | "ab" overflows the allocation; "a\n" does not |
| `Base64.StripCrlf` | base64.c:27-42 | with one more byte allocated, the result is the input's bytes other than CR/LF in order, NUL-terminated |
| `Base64.EncodeSafeSizeFits` | include/base64.h:18 | `B64ENCODE_OUT_SAFESIZE(n)` is exactly the length of b64.c's encoding, `4*ceil(n/3)`, plus one for the terminator. base64.c:100-102 passes it to the library's `base64_encode`, which is not part of this model and writes the same number of characters |
| `Base64.DecodeSafeSizeFits` | include/base64.h:19 | `B64DECODE_OUT_SAFESIZE(n)` = `floor(3n/4)` bounds what b64.c's decoder writes for any n-byte input. base64.c:111-113 passes it to the library's `base64_strict_decode`, which is not part of this model and emits at most 3 bytes per 4 input characters in the same way |
| `Cipher.Ctod` | cipher.c:243-249 | the result is always in [0,15] |
| `Cipher.CtodInvertsHexDigit` | cipher.c:243-249 | '0'-'9', 'a'-'f' and 'A'-'F' map to their values 0-15 |
| `Cipher.CtodZero` | cipher.c:243-249 | the result is 0 exactly for '0' and for non-hex characters |
| `Cipher.HexDecodeOdd` | cipher.c:220-225 | for odd length the last low nibble comes from the NUL terminator and is 0 |
| `Cipher.Ctob` | cipher.c:217-229 | returns `ceil(len/2)`; byte j is `16*ctod(c[2j]) + ctod(c[2j+1])`; writes 0 at `bytes[j]` and nothing after it |
| `Cipher.CtobInvertsBytox` | cipher.c:217-229 | hex-decoding `bytox(b)` reproduces `b`, one byte per two characters |
| `Cipher.RawBytesIs` | cipher.c:232-239 | each 8-bit character is stored as its own code; the raw fallback never has fewer bytes than `ctob` |
| `Cipher.Ctobx` | cipher.c:232-239 | copies each character as one byte, returns strlen, and NUL-terminates |
| `Cipher.FindCipher` | cipher.c:52-53 | the index of the first registered cipher of that name, or none |
| `Cipher.Ctr.constructor` | cipher.c:91-93 | a CTR state bound to key and IV at stream position 0 |
| `Cipher.Ctr.Crypt` | cipher.c:98-100 | transforms the next bytes against the keystream at the current position and advances it by their count |
| `Cipher.XorStreamAppend` | cipher.c:95-104 | transforming two consecutive chunks equals transforming their concatenation |
| `Cipher.XorStreamTwice` | cipher.c:91-125 | the CTR transform at the same key, IV and position is its own inverse |
| `Cipher.ChunkSizesIs` | cipher.c:95-104 | reads are full 512-byte chunks until one short one, summing to the input; a multiple of 512 ends with a 0-byte chunk |
| `Cipher.ChunkLoop` | cipher.c:95-104 | the loop writes the CTR transform of the whole input, in chunks `ChunkSizes(n)`, and advances the position by n |
| `Cipher.SelectKeyFits` | cipher.c:74-75 | a negotiated size never exceeds the key bytes written |
| `Cipher.Krypt` | cipher.c:52-128 | the result equals `KryptSpec`: errors 134/136/135/138/141, or the IV followed by the encrypted input, or the input after its IV decrypted; chunks are read in `ChunkSizes` |
| `Cipher.KryptLengths` | cipher.c:85-125 | encrypt writes exactly the IV then one byte per input byte; decrypt fails with 141 iff the input is shorter than the IV, else writes input length minus `ivsize` |
| `Cipher.KryptRoundTrip` | cipher.c:91-125 | decrypting what encrypt wrote, with the same cipher, digest and keystream, returns the plaintext |
| `Cip.KryptErrorsListed` | cipher.c:53-110 | every error `krypt` can end with has a message in the error table |
| `Nutsbox.CaseRoundTrip` | nutsbox.c:277-319 | `toupper`/`tolower` change only ASCII letters, undo each other on them, and are idempotent |
| `Nutsbox.ToHexLength` | nutsbox.c:66-75 | the hex text has 2 characters per byte and no NUL |
| `Nutsbox.ToHexAt` | nutsbox.c:71-73 | characters 2i and 2i+1 are the lowercase hex of the high and low nibble of byte i |
| `Nutsbox.BytoxLoop` | nutsbox.c:69-74 | the `sprintf` loop as written on the `malloc`'d block: with size 0 the block is left exactly as it was; otherwise it holds the hex text and a NUL |
| `Nutsbox.BytoxEmptyUnterminated` | nutsbox.c:69-74 | as written, `bytox(b, 0)` on a block whose byte is not already NUL returns a buffer with no terminator |
| `Nutsbox.Bytox` | nutsbox.c:66-75 | returns 2*size lowercase hex characters of the bytes, NUL-terminated, also for size 0 |
| `Nutsbox.Isnum` | nutsbox.c:86-93 | true iff every character is an ASCII digit; true for the empty string |
| `Nutsbox.Isthere` | nutsbox.c:368-376 | true iff every character of r occurs in s |
| `Nutsbox.PullstrOutOfBounds` | nutsbox.c:140-153 | as written, the guards admit `pullstr("abcde",4,4)` (reads index 6) and `pullstr("abcde",0,2)` (reads index -1) |
| `Nutsbox.PullstrReadsInBounds` | nutsbox.c:140-153 | as written, reads stay within the string and its NUL iff length is 0 or `1 <= pos` and `pos+length-2 <= strlen` |
| `Nutsbox.PullstrAdmitsInBounds` | nutsbox.c:140-153 | under the corrected guard every index read lies inside the string |
| `Nutsbox.Pullstr` | nutsbox.c:133-159 | NULL iff the request is out of range; otherwise the `length` characters from index `pos-1`, NUL-terminated |
| `Nutsbox.Concat` | nutsbox.c:173-197 | a fresh string holding s1 followed by s2, of length `|s1|+|s2|`, NUL-terminated |
| `Nutsbox.UCase` | nutsbox.c:277-292 | same length, each character through `toupper`, NUL-terminated |
| `Nutsbox.LCase` | nutsbox.c:304-319 | same length, each character through `tolower`, NUL-terminated |
| `Nutsbox.LeftOfIs` | nutsbox.c:408-431 | the kept text is all of s iff `max >= strlen(s)`; cutting again at the same `max` changes nothing; characters after the first `max` do not matter |
| `Nutsbox.Left` | nutsbox.c:408-431 | s unchanged when `max >= len`, otherwise a NUL at `max` after the first max characters (the last byte left unwritten) |
| `Nutsbox.TrimLeftIs` | nutsbox.c:210-218 | left trimming removes a prefix of white space and leaves an empty string or one starting with a non-space |
| `Nutsbox.TrimRightIs` | nutsbox.c:231-246 | right trimming removes a suffix of white space and leaves an empty string or one ending with a non-space |
| `Nutsbox.LTrim` | nutsbox.c:210-218 | NULL stays NULL; otherwise the position of the first non-space character, whose string is the left-trimmed input |
| `Nutsbox.RTrim` | nutsbox.c:231-246 | NULL stays NULL, the empty string is unchanged; otherwise one NUL is written in place right after the last non-space character |
| `Nutsbox.LastNonSpace` | nutsbox.c:238-240 | the backwards scan stops at the last non-space character |
| `Nutsbox.TrimOfIs` | nutsbox.c:259-265 | a trimmed string has no white space at either end, trimming is idempotent, and strings without edge spaces are unchanged |
| `Nutsbox.Trim` | nutsbox.c:259-265 | NULL stays NULL; otherwise the returned position is past the leading white space, the string there is `rtrim(ltrim(s))` and is terminated, and the caller's buffer differs from before only by the NUL after the last non-space character (none for an empty or all-blank string) |
| `Nutsbox.ProperCaseIs` | nutsbox.c:340-348 | r is the proper case of s iff it has the same letters in the same places, its first character is not lower-case and no other is upper-case |
| `Nutsbox.ProperCaseIgnoresCase` | nutsbox.c:340-348 | the proper case of a string does not depend on the case of its letters, and is unchanged by a second application |
| `Nutsbox.ProperCopy` | nutsbox.c:337-353 | the copy loop produces the proper-cased text, NUL-terminated |
| `Nutsbox.PCase` | nutsbox.c:331-354 | the result is the proper case of the trimmed input, NUL-terminated; the caller's buffer is trimmed in place, gaining one NUL after its last non-space character |
| `Nutsbox.NSwap` | nutsbox.c:557-566 | the first `size` bytes of the two objects are exchanged and nothing else changes |
| `Uuid4.MixIsSource` | uuid4.c:30 | the regrouped mix equals `t ^ s0 ^ (t>>18) ^ (s0>>5)` |
| `Uuid4.Xorshift128Plus` | uuid4.c:24-32 | `s[0]` becomes old `s[1]`, `s[1]` becomes the mix, and the result is new `s[1]` + old `s[1]` mod 2^64 |
| `Uuid4.ScrambleInverse` | uuid4.c:29 | `s1 ^= s1 << 23` is invertible |
| `Uuid4.Sh18Inverse` | uuid4.c:30 | `t ^ (t >> 18)` is invertible |
| `Uuid4.StepBijective` | uuid4.c:26-30 | one generator step is a bijection on the seed |
| `Uuid4.StepInjective` | uuid4.c:26-30 | no two seeds step to the same seed |
| `Uuid4.TemplateChars` | uuid4.c:70 | the template has 36 characters: dashes at 8, 13, 18, 23, '4' at 14, 'y' at 19, 'x' elsewhere |
| `Uuid4.XCountBound` | uuid4.c:80-92 | the loop consumes 31 nibbles and reads only bytes 0-15 |
| `Uuid4.Nibble` | uuid4.c:83-84 | the nibble is in [0,15] |
| `Uuid4.UuidCharIs` | uuid4.c:83-89 | dash exactly at 8, 13, 18, 23; '4' at 14; one of '8','9','a','b' at 19; else the lowercase hex of the low nibble of byte k/2 for even k and the high one for odd k |
| `Uuid4.UuidShape` | uuid4.c:80-92 | the whole text has the version-4 UUID shape, all non-dash positions lowercase hex |
| `Uuid4.FillTemplate` | uuid4.c:80-92 | writes exactly the 36 UUID characters and a NUL, nothing beyond |
| `Uuid4.Generate` | uuid4.c:69-93 | two generator steps give the 16 bytes, which fill the template; the seed advances two steps; nothing after the terminator is written |
| `Uuid4.ToUuid4` | uuid4.c:144-183 | the seed and the text depend on the input alone, through md5 and siphash; nothing after the terminator is written |
| `Cip.Lookup` | cip.c:99-102 | true iff the name equals some table entry |
| `Cip.IsHashAlgoValid` | cip.c:93-103 | true iff the name exactly equals one of `HASH_ALGORITHMS` |
| `Cip.IsCipherValid` | cip.c:114-124 | true iff the name exactly equals one of `CIPHERS` |
| `Cip.DefaultsValid` | include/cip.h:17-34 | the default hash and cipher, and "multi2", are in their tables |
| `Cip.GetSubParam` | cip.c:139-143 | returns `args[i+1]` when non-NULL, else NULL |
| `Cip.SubParamIs` | cip.c:139-143 | on a well-formed argv an option has a sub-parameter iff it is not the last argument |
| `Cip.ParamPosIs` | cip.c:158-167 | 0 iff the option is not among `args[1..n)`, otherwise the smallest such index; index 0 is never matched |
| `Cip.GetParamPos` | cip.c:158-167 | the loop returns `ParamPos`: the smallest `1 <= i < n` with `args[i]==option`, else 0 |
| `Cip.IsOptionGiven` | cip.c:244-253 | true iff some `1 <= k < n` has `args[k]==option`, iff `getParamPos` is nonzero |
| `Cip.ErrTabLayout` | include/cip.h:36-82 | codes 100 to 144 in order, each with a message, then the `{0, NULL}` entry |
| `Cip.ErrCodesDistinct` | include/cip.h:36-82 | the table's codes are pairwise distinct |
| `Cip.ErrLookup` | cip.c:63-77 | for nonzero status the index of the first entry with that code; status 0 is not looked up |
| `Cip.DieMessage` | cip.c:63-77 | a nonzero status finds an entry iff it is 100-144, that entry is at `status-100`, and its message is non-NULL |

## Left out

- File and terminal I/O are not modelled. This covers `fopen`, `tmpfile`,
  `fclose`, read errors (`ferror` then `exit(1)`) and write errors
  (`fputs`/`putc`/`fwrite` returning EOF). Input is a complete byte
  sequence and output is never refused.
- Decode's `fwrite(...)==EOF` check (b64.c:276) cannot fire, so it has no
  counterpart in the model.
- `B64.BuildDecodeTable`: the source's first loop stops at index 254 and
  leaves `dtable[255]` uninitialised. The model writes 0x80 there, so
  byte 255 is always invalid.
- The wrappers `s_encode`, `s_decode`, `f_encode`, `f_decode`, `sf_encode`
  and `sf_decode` (b64.c:297-485) are file and tmpfile glue. They are not
  modelled. Their quirks are not modelled either: `s_decode` drops the
  last input character, and the `feof` loop of `s_encode` appends the EOF
  value.
- The `base64()` dispatcher (base64.c:57-119) calls library base64
  routines that are not part of this model. Only its size macros are
  modelled.
- The block ciphers, CTR internals, `rng_make_prng`/`fortuna_read`, the
  cipher registry and the digests are not part of this model. They become
  a keystream function, the generator's returned bytes, a list of cipher
  descriptors and the hex digest text.
- Cipher.Krypt: these failure codes are not modelled, because each comes
  from a failing collaborator or write: 133 (open), 137 (PRNG setup), 139
  (IV write), 140 (`ctr_start`), 141/144 (`ctr_encrypt`/`ctr_decrypt`)
  and 142 (output write).
- Cipher.Krypt: each cipher descriptor's `keysize` callback (cipher.c:74)
  is assumed never to raise the requested key size (`KeysizeShrinks`).
  LibTomCrypt's callbacks only round down, but they are not part of this
  model. `KryptSpec`, `KryptRoundTrip`, `KryptErrorsListed` and
  `SelectKeyFits` rely on it.
- Cipher.Krypt: the key buffer is sized for the digest instead of
  `MAXBLOCKSIZE`.
- Cipher.Krypt: a fresh, different IV on each run cannot be stated,
  because the generator's output is a parameter.
- `getkey`, `readkey`, `gethash` and `get_platform_name` (cipher.c:137-255)
  are terminal and platform code. They are not modelled.
- Nutsbox.RTrim: requires a string that is not all white space. On such
  a string the source's backwards scan walks off the front of the buffer.
  `trim` never passes one, because `ltrim` has already skipped the
  spaces.
- Nutsbox.Left: requires `max >= 0`; a negative `max` would write before
  the buffer.
- Nutsbox.PCase: takes a non-NULL string. The source passes the result of
  `trim` to `strlen`, which fails on NULL.
- These parts of nutsbox.c are not modelled:
  - `wpl`, which concatenates onto an uninitialised buffer;
  - `intToString`, which returns a pointer into a dead stack buffer;
  - `readfile`, `gettime_ns` and `nfgets`, which are I/O and clock code.
- `uuid4_init` (/dev/urandom, CryptGenRandom) is not modelled; the seed is
  a parameter.
- `uuid4_gets` (getshake) is not modelled.
- The union view of uuid4.c assumes a little-endian machine, and
  `Uuid4.WordBytes` fixes that byte order.
- md5 and siphash24 are uninterpreted functions.
- In cip.c, `main`, `help`, `version`, `bailout`, `file_exist` and the
  printing and `exit` of `die` are not modelled.
- `isOptionValid` reads an uninitialised `sp` (cip.c:302) and is not
  modelled.

## Findings

| source | as written | input that shows it | evidently intended | confidence | as-written member | corrected member |
|---|---|---|---|---|---|---|
| base64.c:29-39 | `strip_crlf` allocates `strlen(in)` bytes and writes the NUL at `out[i]`, i = bytes kept | `"ab"` (no CR or LF): the NUL goes to `out[2]`, one past the 2-byte allocation | allocate `strlen(in)+1` bytes | high, not executed | `Base64.StripCrlfOverflow` | `Base64.StripCrlf` |
| nutsbox.c:140-153 | `pullstr` checks only `pos >= strlen` and `length >= strlen`, then reads `s1[pos-1 .. pos+length-2]` | `pullstr("abcde", 4, 4)` reads index 6, past the NUL; `pullstr("abcde", 0, 2)` reads index -1 | `1 <= pos` and `pos-1+length <= strlen` | high, not executed | `Nutsbox.PullstrOutOfBounds` | `Nutsbox.Pullstr` |
| nutsbox.c:69-74 | `bytox` relies on `sprintf` to write the terminator | `bytox(b, 0)`: `malloc(1)` is returned without ever being written, so it is not a string | terminate the buffer before the loop | high, not executed | `Nutsbox.BytoxEmptyUnterminated` | `Nutsbox.Bytox` |
