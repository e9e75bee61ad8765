/** The table lookups of cip.c: the hash algorithm and cipher name
    checks, the scans over the command line, and the error-message
    lookup of `die`. The argument vector is a sequence of possibly-NULL
    strings; C strings compare with `strcmp` exactly when they are
    equal. */
module Cip {
  import opened CTypes
  import Cipher

  /** `DEFAULT_HASH` and `DEFAULT_CIPHER` (include/cip.h:17-18). */
  const DEFAULT_HASH := "sha3-256"
  const DEFAULT_CIPHER := "aes"

  /** `HASH_ALGORITHMS` (include/cip.h:24-29), in its order. */
  const HASH_ALGORITHMS: seq<string> :=
    ["md2", "md4", "md5", "sha1", "sha224", "sha256", "sha384", "sha512"] +
    ["sha512-224", "sha512-256", "sha3-224", "sha3-256", "sha3-384", "sha3-512", "whirlpool", "blake2b-160"] +
    ["blake2b-256", "blake2b-384", "blake2b-512", "tiger", "blake2s-128", "blake2s-160", "blake2s-224", "blake2s-256"] +
    ["rmd128", "rmd160", "rmd256", "rmd320", "chc_hash", "siphash", "shake3-128", "shake3-256"] +
    ["crc32", "adler32"]

  /** `CIPHERS` (include/cip.h:31-34), in its order. */
  const CIPHERS: seq<string> :=
    ["aes", "blowfish", "xtea", "rc2", "rc5", "rc6", "twofish", "safer-k64"] +
    ["safer-sk64", "safer-k128", "safer-sk128", "safer+", "des", "3des", "cast5", "noekeon"] +
    ["skipjack", "anubis", "khazad", "seed", "kasumi", "multi2", "camellia"]

  /** An entry of `errtab`: a code and a message, NULL in the closing
      `{0, NULL}` entry. */
  datatype ErrEntry = ErrEntry(code: int, msg: Option<string>)

  /** `errtab`, initialised from `ERR_MESSAGES` (include/cip.h:36-82,
      cip.c:19-23), in its order. */
  const ERRTAB: seq<ErrEntry> :=
    [ErrEntry(100, Some("option(s) required.")),
     ErrEntry(101, Some("invalid option %s")),
     ErrEntry(102, Some("missing sub-param required by -s")),
     ErrEntry(103, Some("\"%s\" cannot be a sub-param for -s")),
     ErrEntry(104, Some("missing sub-param required by -f")),
     ErrEntry(105, Some("\"%s\" cannot be a sub-param for -f")),
     ErrEntry(106, Some("-ts requires <string> to hash")),
     ErrEntry(107, Some("\"%s\" cannot be a sub-param for -ts"))] +
    [ErrEntry(108, Some("invalid hashing algorithm: %s.")),
     ErrEntry(109, Some("error hashing data: %s")),
     ErrEntry(110, Some("-tf requires <filename> to hash")),
     ErrEntry(111, Some("\"%s\" does not exist or is not accessible")),
     ErrEntry(112, Some("missing sub-param required for %s")),
     ErrEntry(113, Some("invalid sub-param: %s")),
     ErrEntry(114, Some("%s requires a key")),
     ErrEntry(115, Some("key length must be %s characters"))] +
    [ErrEntry(116, Some("unable to open %s")),
     ErrEntry(117, Some("param given to -len is not a number: %s")),
     ErrEntry(118, Some("could not inititialize SHAKE algorithm (%s)")),
     ErrEntry(119, Some("could not process SHAKE algorithm (%s)")),
     ErrEntry(120, Some("could not finish SHAKE algorithm (%s)")),
     ErrEntry(121, Some("no given operation(s) to perform")),
     ErrEntry(122, Some("-us requires <string> to generate uuid4")),
     ErrEntry(123, Some("-uf requires <filename> to generate uuid4"))] +
    [ErrEntry(124, Some("random uuid4 (-u) does not require \"%s\"")),
     ErrEntry(125, Some("base64 encoding error encountered for %s")),
     ErrEntry(126, Some("base64 decoding error encountered for %s")),
     ErrEntry(127, Some("no string or file given to perform an operation with")),
     ErrEntry(128, Some("-es requires <string> to encrypt")),
     ErrEntry(129, Some("-ef requires <filename> to encrypt")),
     ErrEntry(130, Some("keys do not match")),
     ErrEntry(131, Some("-ds requires <string> to encrypt"))] +
    [ErrEntry(132, Some("-df requires <filename> to encrypt")),
     ErrEntry(133, Some("file i/o error encountered: %s")),
     ErrEntry(134, Some("cipher init failed or invalid cipher: %s")),
     ErrEntry(135, Some("invalid key size")),
     ErrEntry(136, Some("%s algorithm is not compatible with this cipher, try other combination")),
     ErrEntry(137, Some("unable to setup PRNG: %s")),
     ErrEntry(138, Some("unable to generate required random number for IV")),
     ErrEntry(139, Some("error writing IV"))] +
    [ErrEntry(140, Some("ctr_start error: %s")),
     ErrEntry(141, Some("ctr_encrypt error: %s")),
     ErrEntry(142, Some("error writing output file: %s")),
     ErrEntry(143, Some("error reading IV from input: %s")),
     ErrEntry(144, Some("ctr_decrypt error: %s")),
     ErrEntry(0, None)]

  // ---------------------------------------------------------------
  // isHashAlgoValid, isCipherValid
  // ---------------------------------------------------------------

  /** The `strcmp` loop over a name table shared by `isHashAlgoValid`
      and `isCipherValid`: true at the first equal entry. */
  method Lookup(table: seq<string>, name: string) returns (found: bool)
    ensures found <==> name in table
  {
    var i := 0;
    while i < |table|
      invariant 0 <= i <= |table|
      invariant name !in table[..i]
    {
      if table[i] == name {
        return true;
      }
      assert table[..i + 1] == table[..i] + [table[i]];
      i := i + 1;
    }
    assert table[..i] == table;
    return false;
  }

  /** `isHashAlgoValid` (cip.c:93-103). */
  method IsHashAlgoValid(algo: string) returns (b: bool)
    ensures b <==> algo in HASH_ALGORITHMS
  {
    b := Lookup(HASH_ALGORITHMS, algo);
  }

  /** `isCipherValid` (cip.c:114-124). */
  method IsCipherValid(cipher: string) returns (b: bool)
    ensures b <==> cipher in CIPHERS
  {
    b := Lookup(CIPHERS, cipher);
  }

  /** The defaults the program falls back to pass the checks, and so
      does "multi2", the cipher the key selection treats specially. */
  lemma DefaultsValid()
    ensures DEFAULT_HASH in HASH_ALGORITHMS && DEFAULT_CIPHER in CIPHERS
    ensures "multi2" in CIPHERS
  {
    assert HASH_ALGORITHMS[11] == DEFAULT_HASH;
    assert CIPHERS[0] == DEFAULT_CIPHER;
    assert CIPHERS[21] == "multi2";
  }

  // ---------------------------------------------------------------
  // The command line: getSubParam, getParamPos, isOptionGiven
  // ---------------------------------------------------------------

  /** `argv` with `argc == n`: `n` non-NULL strings and the NULL after
      them. */
  predicate Argv(args: seq<Option<string>>, n: int)
  {
    0 <= n && |args| == n + 1 && args[n] == None &&
    forall k :: 0 <= k < n ==> args[k].Some?
  }

  /** `getSubParam` (cip.c:139-143): the argument after position `i`,
      or NULL. */
  function GetSubParam(args: seq<Option<string>>, i: int): (r: Option<string>)
    requires 0 <= i && i + 1 < |args|
    ensures r.Some? <==> args[i + 1].Some?
  {
    if args[i + 1].Some? then args[i + 1] else None
  }

  /** On a well-formed `argv`, an option has a sub-parameter exactly
      when it is not the last argument. */
  lemma SubParamIs(args: seq<Option<string>>, n: int, i: int)
    requires Argv(args, n) && 0 <= i < n
    ensures GetSubParam(args, i).Some? <==> i + 1 < n
    ensures i + 1 < n ==> GetSubParam(args, i) == args[i + 1]
  {
  }

  /** The first position at or after `i` and before `n` holding
      `option`, or 0 when there is none. */
  function FirstFrom(args: seq<Option<string>>, n: int, option: string, i: nat): nat
    requires n <= |args|
    decreases n - i
  {
    if i >= n then 0
    else if args[i] == Some(option) then i
    else FirstFrom(args, n, option, i + 1)
  }

  /** The position `getParamPos` promises, counted from 1 so that the
      program name is never matched. */
  function ParamPos(args: seq<Option<string>>, n: int, option: string): nat
    requires n <= |args|
  {
    FirstFrom(args, n, option, 1)
  }

  lemma {:induction false} FirstFromIs(args: seq<Option<string>>, n: int, option: string, i: nat)
    requires n <= |args| && 1 <= i
    ensures var r := FirstFrom(args, n, option, i);
      (r == 0 <==> forall k :: i <= k < n ==> args[k] != Some(option)) &&
      (r != 0 ==> i <= r < n && args[r] == Some(option) &&
                  forall k :: i <= k < r ==> args[k] != Some(option))
    decreases n - i
  {
    if i < n && args[i] != Some(option) {
      FirstFromIs(args, n, option, i + 1);
    }
  }

  /** `ParamPos` is 0 when `option` is not among `args[1..n]`, and
      otherwise the smallest such position. */
  lemma ParamPosIs(args: seq<Option<string>>, n: int, option: string)
    requires n <= |args|
    ensures var r := ParamPos(args, n, option);
      (r == 0 <==> forall k :: 1 <= k < n ==> args[k] != Some(option)) &&
      (r != 0 ==> 1 <= r < n && args[r] == Some(option) &&
                  forall k :: 1 <= k < r ==> args[k] != Some(option))
  {
    FirstFromIs(args, n, option, 1);
  }

  /** `getParamPos` (cip.c:158-167). */
  method GetParamPos(args: seq<Option<string>>, n: int, option: string) returns (pos: int)
    requires Argv(args, n)
    ensures pos == ParamPos(args, n, option)
    ensures pos == 0 || (1 <= pos < n && args[pos] == Some(option))
  {
    ParamPosIs(args, n, option);
    var i := 1;
    while i < n
      invariant 1 <= i && (i <= n || n == 0)
      invariant FirstFrom(args, n, option, i) == ParamPos(args, n, option)
    {
      if args[i].value == option {
        return i;
      }
      i := i + 1;
    }
    return 0;
  }

  /** `isOptionGiven` (cip.c:244-253): a separate loop that holds
      exactly when `getParamPos` finds the option. */
  method IsOptionGiven(args: seq<Option<string>>, n: int, option: string) returns (given: bool)
    requires Argv(args, n)
    ensures given <==> exists k :: 1 <= k < n && args[k] == Some(option)
    ensures given <==> ParamPos(args, n, option) != 0
  {
    ParamPosIs(args, n, option);
    var i := 1;
    while i < n
      invariant 1 <= i && (i <= n || n == 0)
      invariant forall k :: 1 <= k < i && k < n ==> args[k] != Some(option)
    {
      if args[i].value == option {
        return true;
      }
      i := i + 1;
    }
    return false;
  }

  // ---------------------------------------------------------------
  // The errtab lookup of die
  // ---------------------------------------------------------------

  /** The first entry at or after `i` whose code is `status`. */
  function FirstCode(status: int, i: nat): Option<nat>
    decreases |ERRTAB| - i
  {
    if i >= |ERRTAB| then None
    else if ERRTAB[i].code == status then Some(i)
    else FirstCode(status, i + 1)
  }

  /** The layout of the table: codes 100 to 144 in order, each with a
      message, then the closing entry. */
  lemma ErrTabLayout()
    ensures |ERRTAB| == 46 && ERRTAB[45] == ErrEntry(0, None)
    ensures forall i :: 0 <= i < 45 ==> ERRTAB[i].code == 100 + i && ERRTAB[i].msg.Some?
  {
    forall i | 0 <= i < 45
      ensures ERRTAB[i].code == 100 + i && ERRTAB[i].msg.Some?
    {
      assert i == 0 || i == 1 || i == 2 || i == 3 || i == 4 || i == 5 || i == 6 || i == 7 || i == 8 || i == 9 || i == 10 || i == 11 || i == 12 || i == 13 || i == 14 || i == 15 || i == 16 || i == 17 || i == 18 || i == 19 || i == 20 || i == 21 || i == 22 || i == 23 || i == 24 || i == 25 || i == 26 || i == 27 || i == 28 || i == 29 || i == 30 || i == 31 || i == 32 || i == 33 || i == 34 || i == 35 || i == 36 || i == 37 || i == 38 || i == 39 || i == 40 || i == 41 || i == 42 || i == 43 || i == 44;
    }
  }

  /** The codes are pairwise distinct, so at most one entry can match. */
  lemma ErrCodesDistinct()
    ensures forall i, j :: 0 <= i < j < |ERRTAB| ==> ERRTAB[i].code != ERRTAB[j].code
  {
    ErrTabLayout();
  }

  lemma {:induction false} FirstCodeIs(status: int, i: nat)
    requires i <= 45
    ensures FirstCode(status, i) ==
      if i <= status - 100 <= 44 then Some(status - 100)
      else if status == 0 then Some(45)
      else None
    decreases 46 - i
  {
    ErrTabLayout();
    if i < 45 && ERRTAB[i].code != status {
      FirstCodeIs(status, i + 1);
    } else if i == 45 {
      assert FirstCode(status, 46) == None;
    }
  }

  /** The loop of `die` (cip.c:63-77): for a nonzero status, the index
      of the first entry with that code, if any; for status 0 the table
      is not searched. */
  method ErrLookup(status: int) returns (idx: Option<nat>)
    ensures status == 0 ==> idx == None
    ensures status != 0 ==> idx == FirstCode(status, 0)
  {
    idx := None;
    if status != 0 {
      var i := 0;
      while i < |ERRTAB|
        invariant 0 <= i <= |ERRTAB|
        invariant FirstCode(status, i) == FirstCode(status, 0)
      {
        if ERRTAB[i].code == status {
          idx := Some(i);
          break;
        }
        i := i + 1;
      }
    }
  }

  /** `die` prints a message exactly for the codes 100 to 144, the one
      at position `status - 100`, and it is never the NULL of the
      closing entry: that one has code 0, which `die` does not look
      up. */
  lemma DieMessage(status: int)
    requires status != 0
    ensures FirstCode(status, 0).Some? <==> 100 <= status <= 144
    ensures FirstCode(status, 0).Some? ==>
      FirstCode(status, 0) == Some(status - 100) && ERRTAB[status - 100].msg.Some?
  {
    ErrTabLayout();
    FirstCodeIs(status, 0);
  }

  /** Every error `krypt` can end with has its entry in the table, so
      `die` prints a message for it. */
  lemma KryptErrorsListed(req: Cipher.Request, data: seq<byte>, env: Cipher.Env)
    requires Cipher.EnvValid(env)
    ensures var r := Cipher.KryptSpec(req, data, env);
      r.Err? ==>
        (r.error in {134, 135, 136, 138, 141} &&
         FirstCode(r.error, 0) == Some(r.error - 100) && ERRTAB[r.error - 100].msg.Some?)
  {
    var r := Cipher.KryptSpec(req, data, env);
    if r.Err? {
      var idx := Cipher.FindCipher(env.ciphers, req.cipher);
      if idx.Some? {
        Cipher.SelectKeySteps(req.cipher, env.ciphers[idx.value], req.digest);
      }
      assert r.error in {134, 135, 136, 138, 141};
      DieMessage(r.error);
    }
  }
}
