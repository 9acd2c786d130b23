/**
 * Proof-of-work sealing: the hash of data ++ prev ++ decimal(nonce) is
 * computed for nonce = 0, 1, 2, ... until one starts with the required
 * number of '0' characters.
 */
module Mining {
  import opened HexFormat
  import opened DecimalFormat

  /** DIFFICULTY: the number of leading '0' characters a block hash needs. */
  const DIFFICULTY: int := 3

  /**
   * The SHA-256 primitive (the library's SHA256_Init/Update/Final): any
   * function from the bytes of a string to a 32-byte digest.
   */
  type Hasher = string -> Digest

  /** The string sha256() produces: the digest in lowercase hex. */
  function Sha256Hex(hasher: Hasher, s: string): (r: string)
    ensures |r| == 2 * DIGEST_LENGTH
  {
    Hex(hasher(s))
  }

  /**
   * The first `zeros` characters of `hash` are all '0'. Reading the C string at
   * position |hash| yields the terminator, which is not '0', so a hash shorter
   * than `zeros` does not qualify.
   */
  ghost predicate LeadingZeros(hash: string, zeros: int) {
    forall i :: 0 <= i < zeros ==> i < |hash| && hash[i] == '0'
  }

  /** The character at position i of a NUL-terminated string. */
  function CharAt(s: string, i: int): char
    requires 0 <= i <= |s|
  {
    if i < |s| then s[i] else '\0'
  }

  /** starts_with_zeros: 1 when the first `zeros` characters are '0', else 0. */
  method StartsWithZeros(hash: string, zeros: int) returns (r: int)
    ensures r == 0 || r == 1
    ensures r == 1 <==> LeadingZeros(hash, zeros)
    ensures zeros <= 0 ==> r == 1
    ensures zeros > |hash| ==> r == 0
  {
    var i := 0;
    while i < zeros
      invariant 0 <= i <= |hash|
      invariant forall j :: 0 <= j < i ==> hash[j] == '0'
    {
      if CharAt(hash, i) != '0' {
        return 0;
      }
      i := i + 1;
    }
    return 1;
  }

  /** The string that is hashed for a nonce: sprintf("%s%s%d", data, prev, nonce). */
  function Candidate(data: string, prev: string, nonce: nat): (r: string)
    ensures |r| == |data| + |prev| + |Decimal(nonce)|
    ensures r[..|data|] == data && r[|data|..|data| + |prev|] == prev
    ensures r[|data| + |prev|..] == Decimal(nonce)
  {
    data + prev + Decimal(nonce)
  }

  /** Each nonce yields its own candidate, so no candidate is hashed twice. */
  lemma CandidateInjective(data: string, prev: string, n: nat, m: nat)
    requires Candidate(data, prev, n) == Candidate(data, prev, m)
    ensures n == m
  {
    var prefix := data + prev;
    assert Decimal(n) == Candidate(data, prev, n)[|prefix|..];
    assert Decimal(m) == Candidate(data, prev, m)[|prefix|..];
    DecimalInjective(n, m);
  }

  /** The hash for `nonce` meets the difficulty. */
  ghost predicate Accepts(hasher: Hasher, data: string, prev: string, difficulty: int, nonce: nat) {
    LeadingZeros(Sha256Hex(hasher, Candidate(data, prev, nonce)), difficulty)
  }

  /**
   * The outcome of the search: `tries` candidates were hashed (the value of
   * the C variable nonce when the loop exits), the last one, nonce tries - 1,
   * produced `hash`, which meets the difficulty, and every earlier nonce failed.
   */
  ghost predicate Sealed(hasher: Hasher, data: string, prev: string, difficulty: int, hash: string, tries: nat) {
    && tries >= 1
    && hash == Sha256Hex(hasher, Candidate(data, prev, tries - 1))
    && LeadingZeros(hash, difficulty)
    && forall n: nat :: n < tries - 1 ==> !Accepts(hasher, data, prev, difficulty, n)
  }

  /** The search has one outcome: the least accepted nonce. */
  lemma SealedUnique(hasher: Hasher, data: string, prev: string, difficulty: int,
                     hash1: string, tries1: nat, hash2: string, tries2: nat)
    requires Sealed(hasher, data, prev, difficulty, hash1, tries1)
    requires Sealed(hasher, data, prev, difficulty, hash2, tries2)
    ensures tries1 == tries2 && hash1 == hash2
  {
    if tries1 < tries2 {
      assert Accepts(hasher, data, prev, difficulty, tries1 - 1);
    } else if tries2 < tries1 {
      assert Accepts(hasher, data, prev, difficulty, tries2 - 1);
    }
  }

  /** Helper of Mine: one more rejected nonce extends the rejected prefix. */
  lemma RejectedPrefixGrows(hasher: Hasher, data: string, prev: string, difficulty: int, k: nat)
    requires forall n: nat :: n < k ==> !Accepts(hasher, data, prev, difficulty, n)
    requires !Accepts(hasher, data, prev, difficulty, k)
    ensures forall n: nat :: n < k + 1 ==> !Accepts(hasher, data, prev, difficulty, n)
  {
  }

  /**
   * sha256(): hash the string, then format the digest into a 65-character
   * buffer; the result is the text before the terminator.
   */
  method Sha256(hasher: Hasher, s: string) returns (hex: string)
    ensures hex == Sha256Hex(hasher, s)
    ensures |hex| == 2 * DIGEST_LENGTH
    ensures forall k :: 0 <= k < |hex| ==> IsHexDigit(hex[k])
  {
    var digest := hasher(s);
    var buffer := new char[HEX_BUFFER_LENGTH];
    FormatDigest(digest, buffer);
    hex := buffer[..2 * DIGEST_LENGTH];
    HexIsLowercase(digest);
  }

  /**
   * One pass of the do-while body of create_block: format the candidate for
   * `nonce`, hash it, and test the hash against the difficulty.
   */
  method Attempt(hasher: Hasher, data: string, prev: string, difficulty: int, nonce: nat) returns (hash: string, ok: int)
    ensures hash == Sha256Hex(hasher, Candidate(data, prev, nonce))
    ensures ok == 0 || ok == 1
    ensures ok == 1 <==> Accepts(hasher, data, prev, difficulty, nonce)
  {
    var combined := Candidate(data, prev, nonce);
    hash := Sha256(hasher, combined);
    ok := StartsWithZeros(hash, difficulty);
  }

  /**
   * The do-while loop of create_block. The search has no bound; it is proved
   * to terminate whenever some nonce is accepted, and its result is the first
   * accepted nonce.
   */
  method Mine(hasher: Hasher, data: string, prev: string, difficulty: int) returns (hash: string, tries: nat)
    requires exists n: nat :: Accepts(hasher, data, prev, difficulty, n)
    ensures Sealed(hasher, data, prev, difficulty, hash, tries)
    ensures difficulty <= 0 ==> tries == 1
  {
    ghost var bound: nat :| Accepts(hasher, data, prev, difficulty, bound);
    var nonce: nat := 0;
    var ok;
    hash, ok := Attempt(hasher, data, prev, difficulty, nonce);
    nonce := nonce + 1;
    while ok == 0
      invariant nonce >= 1
      invariant hash == Sha256Hex(hasher, Candidate(data, prev, nonce - 1))
      invariant ok == 0 || ok == 1
      invariant ok == 1 <==> Accepts(hasher, data, prev, difficulty, nonce - 1)
      invariant difficulty <= 0 ==> nonce == 1
      invariant forall n: nat :: n < nonce - 1 ==> !Accepts(hasher, data, prev, difficulty, n)
      invariant nonce - 1 <= bound
      decreases bound - (nonce - 1)
    {
      RejectedPrefixGrows(hasher, data, prev, difficulty, nonce - 1);
      hash, ok := Attempt(hasher, data, prev, difficulty, nonce);
      nonce := nonce + 1;
    }
    tries := nonce;
  }
}
