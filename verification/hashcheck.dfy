/**
  The target hash: the check of its format before a search starts
  (hashbuster.py, validate_hash) and the comparison of a candidate against it
  (check_candidate). The digest algorithms and bcrypt's verifier are library
  code; the model takes them as function parameters.
 */
module HashCheck {
  import opened Common

  newtype byte = b: int | 0 <= b < 256

  /** The `hash_type` choices of the command line. */
  datatype Algorithm = MD5 | SHA1 | SHA256 | SHA512 | Bcrypt

  /** The length of the hex digest validate_hash demands of each digest
      algorithm. */
  function HexLength(alg: Algorithm): nat
    requires alg != Bcrypt
  {
    match alg
    case MD5 => 32
    case SHA1 => 40
    case SHA256 => 64
    case SHA512 => 128
  }

  /** A character of '0123456789abcdef'. */
  predicate IsHexDigit(c: char) { '0' <= c <= '9' || 'a' <= c <= 'f' }

  /** `all(c in '0123456789abcdef' for c in hash_value)`. */
  function AllHex(s: string): (ok: bool)
    ensures ok <==> forall k :: 0 <= k < |s| ==> IsHexDigit(s[k])
  {
    s == [] || (IsHexDigit(s[0]) && AllHex(s[1..]))
  }

  predicate HasBcryptPrefix(h: string)
  {
    |h| >= 4 && h[..4] in {"$2a$", "$2b$", "$2y$"}
  }

  /** The ValueError validate_hash raises, by message. */
  datatype Invalid =
    | BcryptMissing    // "bcrypt requires 'pip install bcrypt'"
    | BadBcryptFormat  // "Invalid bcrypt hash format"
    | BadLength        // "Invalid <type> hash length"
    | BadCharacters    // "Invalid <type> hash characters"

  /** validate_hash; `bcryptAvailable` says whether the bcrypt module could be
      imported. */
  function ValidateHash(h: string, alg: Algorithm, bcryptAvailable: bool): (r: Result<(), Invalid>)
    ensures alg == Bcrypt ==> (r.Ok? <==> bcryptAvailable && HasBcryptPrefix(h))
    ensures alg != Bcrypt ==>
      (r.Ok? <==> |h| == HexLength(alg) && forall k :: 0 <= k < |h| ==> IsHexDigit(h[k]))
    ensures r == Err(BcryptMissing) <==> alg == Bcrypt && !bcryptAvailable
    ensures r == Err(BadBcryptFormat) <==> alg == Bcrypt && bcryptAvailable && !HasBcryptPrefix(h)
    ensures r == Err(BadLength) <==> alg != Bcrypt && |h| != HexLength(alg)
    ensures r == Err(BadCharacters) <==>
      alg != Bcrypt && |h| == HexLength(alg) && exists k :: 0 <= k < |h| && !IsHexDigit(h[k])
  {
    if alg == Bcrypt then
      if !bcryptAvailable then Err(BcryptMissing)
      else if !HasBcryptPrefix(h) then Err(BadBcryptFormat)
      else Ok(())
    else if |h| != HexLength(alg) then Err(BadLength)
    else if !AllHex(h) then Err(BadCharacters)
    else Ok(())
  }

  function HexChar(d: nat): (c: char)
    requires d < 16
    ensures IsHexDigit(c)
  {
    if d < 10 then ('0' as int + d) as char else ('a' as int + d - 10) as char
  }

  function HexValue(c: char): (d: nat)
    requires IsHexDigit(c)
    ensures d < 16 && HexChar(d) == c
  {
    if c <= '9' then c as int - '0' as int else c as int - 'a' as int + 10
  }

  /** `hexdigest()`: two lower-case hex digits per byte, high nibble first. */
  function HexEncode(bytes: seq<byte>): (s: string)
    ensures |s| == 2 * |bytes|
    ensures forall k :: 0 <= k < |s| ==> IsHexDigit(s[k])
  {
    if bytes == [] then []
    else [HexChar(bytes[0] as int / 16), HexChar(bytes[0] as int % 16)] + HexEncode(bytes[1..])
  }

  function HexDecode(s: string): (bytes: seq<byte>)
    requires |s| % 2 == 0
    requires forall k :: 0 <= k < |s| ==> IsHexDigit(s[k])
    ensures 2 * |bytes| == |s|
  {
    if s == [] then []
    else [(HexValue(s[0]) * 16 + HexValue(s[1])) as byte] + HexDecode(s[2..])
  }

  lemma {:induction false} DecodeEncode(bytes: seq<byte>)
    ensures HexDecode(HexEncode(bytes)) == bytes
  {
    if bytes != [] {
      var s := HexEncode(bytes);
      assert s[2..] == HexEncode(bytes[1..]);
      DecodeEncode(bytes[1..]);
    }
  }

  lemma {:induction false} EncodeDecode(s: string)
    requires |s| % 2 == 0
    requires forall k :: 0 <= k < |s| ==> IsHexDigit(s[k])
    ensures HexEncode(HexDecode(s)) == s
  {
    if s != [] {
      var b := HexDecode(s);
      var v := HexValue(s[0]) * 16 + HexValue(s[1]);
      assert v / 16 == HexValue(s[0]) && v % 16 == HexValue(s[1]);
      assert b[1..] == HexDecode(s[2..]);
      EncodeDecode(s[2..]);
    }
  }

  /** A digest target passes validation exactly when it is the hexdigest of
      some byte string of the algorithm's digest size. */
  lemma ValidDigestIsEncoding(h: string, alg: Algorithm, bcryptAvailable: bool)
    requires alg != Bcrypt
    ensures ValidateHash(h, alg, bcryptAvailable).Ok?
        <==> exists bytes :: 2 * |bytes| == HexLength(alg) && HexEncode(bytes) == h
  {
    if ValidateHash(h, alg, bcryptAvailable).Ok? {
      EncodeDecode(h);
      assert 2 * |HexDecode(h)| == HexLength(alg) && HexEncode(HexDecode(h)) == h;
    }
  }

  /** check_candidate, with the libraries passed in: `digest(alg, c)` is the
      digest hashlib computes over the encoded candidate and `checkpw(c, h)`
      bcrypt's verdict; None stands for an exception, which counts as no
      match. Against a target that passes validation, a digest candidate
      matches exactly when its digest is the byte string the target's hex
      spells out. */
  function CheckCandidate(candidate: string, target: string, alg: Algorithm,
                          digest: (Algorithm, string) -> Option<seq<byte>>,
                          checkpw: (string, string) -> Option<bool>): (matched: bool)
    ensures alg == Bcrypt && checkpw(candidate, target) == None ==> !matched
    ensures alg == Bcrypt && checkpw(candidate, target) == Some(false) ==> !matched
    ensures alg == Bcrypt && checkpw(candidate, target) == Some(true) ==> matched
    ensures alg != Bcrypt && digest(alg, candidate) == None ==> !matched
    ensures alg != Bcrypt && ValidateHash(target, alg, true).Ok? ==>
      (matched <==> digest(alg, candidate) == Some(HexDecode(target)))
  {
    if alg == Bcrypt then checkpw(candidate, target) == Some(true)
    else
      match digest(alg, candidate)
      case None => false
      case Some(d) =>
        assert ValidateHash(target, alg, true).Ok? ==> (HexEncode(d) == target <==> d == HexDecode(target)) by {
          if ValidateHash(target, alg, true).Ok? {
            EncodeDecode(target);
            DecodeEncode(d);
          }
        }
        HexEncode(d) == target
  }

  /** A digest target that fails validation can never be matched, whatever
      the candidate: validation only turns away searches that could not
      succeed. */
  lemma MatchNeedsValidTarget(candidate: string, target: string, alg: Algorithm,
                              digest: (Algorithm, string) -> Option<seq<byte>>,
                              checkpw: (string, string) -> Option<bool>, bcryptAvailable: bool)
    requires alg != Bcrypt
    requires digest(alg, candidate).Some? ==> 2 * |digest(alg, candidate).value| == HexLength(alg)
    requires CheckCandidate(candidate, target, alg, digest, checkpw)
    ensures ValidateHash(target, alg, bcryptAvailable).Ok?
  {
    ValidDigestIsEncoding(target, alg, bcryptAvailable);
  }
}
