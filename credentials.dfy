/**
 * The credentials the handlers issue and check, with the foreign libraries behind them
 * held abstract: a bcrypt hash is a digest that matches exactly its own password, a signed
 * JWT is the payload it carries with its lifetime, and a refresh token is the hexadecimal
 * text of 64 random bytes that the caller supplies.
 */
module Credentials {

  /** The `role` column of `users`; a value other than the four roles the code names is `Other`. */
  datatype Role = Guest | User | Admin | Own | Other

  /** The roles whose access tokens the auth gate checks against `refresh_tokens`. */
  predicate IsPrivileged(r: Role)
  {
    r == Admin || r == Own
  }

  /** The JWT payload `{ user_id, role }`. */
  datatype Claims = Claims(userId: int, role: Role)

  /** `expiresIn: '30m'`, in seconds. */
  const AccessTokenLifetime: nat := 30 * 60

  /** What `jwt.sign(payload, JWT_SECRET, { expiresIn: '30m' })` hands out. */
  datatype AccessGrant = AccessGrant(claims: Claims, expiresIn: nat)

  /** The access token every handler issues: for the given user and role, valid 30 minutes. */
  function Grant(userId: int, role: Role): (g: AccessGrant)
    ensures g.claims.userId == userId && g.claims.role == role
    ensures g.expiresIn == 1800
  {
    AccessGrant(Claims(userId, role), AccessTokenLifetime)
  }

  /**
   * A bcrypt hash, held abstract: the only thing one can do with it is compare a password.
   * It is a digest of the bytes bcrypt actually reads.
   */
  datatype PasswordHash = Digest(secret: seq<byte>)

  /** The number of password bytes bcrypt reads; any further bytes are ignored. */
  const BcryptMaxBytes: nat := 72

  /** The UTF-8 encoding of one character, as bcryptjs encodes a password before hashing. */
  function Utf8Char(c: char): (b: seq<byte>)
    ensures 1 <= |b| <= 4
    ensures |b| == 1 <==> c as int < 0x80
    ensures |b| == 1 ==> b[0] == c as int
  {
    var n := c as int;
    if n < 0x80 then [n]
    else if n < 0x800 then [0xC0 + n / 0x40, 0x80 + n % 0x40]
    else if n < 0x10000 then [0xE0 + n / 0x1000, 0x80 + (n / 0x40) % 0x40, 0x80 + n % 0x40]
    else [0xF0 + n / 0x40000, 0x80 + (n / 0x1000) % 0x40, 0x80 + (n / 0x40) % 0x40, 0x80 + n % 0x40]
  }

  /** The UTF-8 encoding of a string. */
  function Utf8(s: string): (b: seq<byte>)
    ensures |s| <= |b| <= 4 * |s|
  {
    if s == [] then [] else Utf8Char(s[0]) + Utf8(s[1..])
  }

  /** The key bcryptjs expands: the UTF-8 bytes of the password followed by one NUL byte. */
  function BcryptKey(password: string): (k: seq<byte>)
    ensures |k| == |Utf8(password)| + 1
    ensures k[..|k| - 1] == Utf8(password) && k[|k| - 1] == 0
  {
    Utf8(password) + [0]
  }

  /** The first `n` bytes of `key` read cyclically: the sequence starts with the key and repeats with the key's length as period. */
  function Cycle(key: seq<byte>, n: nat): (r: seq<byte>)
    requires |key| > 0
    ensures |r| == n
    ensures forall i :: 0 <= i < n && i < |key| ==> r[i] == key[i]
    ensures forall i :: |key| <= i < n ==> r[i] == r[i - |key|]
    decreases n
  {
    if n <= |key| then key[..n]
    else
      var rest := Cycle(key, n - |key|);
      var r := key + rest;
      assert forall i :: |key| <= i < n ==> r[i] == rest[i - |key|];
      r
  }

  /**
   * The 72 bytes bcrypt reads: the key repeated cyclically. A password of at most 71 bytes
   * is read with its NUL; from 72 bytes on, only its first 72 bytes are read.
   */
  function BcryptInput(password: string): (b: seq<byte>)
    ensures |b| == BcryptMaxBytes
    ensures forall i :: 0 <= i < |b| && i < |BcryptKey(password)| ==> b[i] == BcryptKey(password)[i]
    ensures forall i :: |BcryptKey(password)| <= i < |b| ==> b[i] == b[i - |BcryptKey(password)|]
    ensures |Utf8(password)| < BcryptMaxBytes ==> b[..|Utf8(password)| + 1] == Utf8(password) + [0]
    ensures |Utf8(password)| >= BcryptMaxBytes ==> b == Utf8(password)[..BcryptMaxBytes]
  {
    var k := BcryptKey(password);
    var b := Cycle(k, BcryptMaxBytes);
    assert |Utf8(password)| >= BcryptMaxBytes ==> b == Utf8(password)[..BcryptMaxBytes] by {
      if |Utf8(password)| >= BcryptMaxBytes {
        forall i | 0 <= i < BcryptMaxBytes ensures b[i] == Utf8(password)[i] {
          assert k[i] == k[..|k| - 1][i];
        }
      }
    }
    b
  }

  /** `bcrypt.hash(password, salt)`; the salt is not modelled. */
  function Hash(password: string): PasswordHash
  {
    Digest(BcryptInput(password))
  }

  /** `bcrypt.compare(password, hash)`. */
  predicate Matches(password: string, h: PasswordHash)
  {
    h == Hash(password)
  }

  /**
   * A hash matches the password it was made from, and another password exactly when the
   * two agree on the bytes bcrypt reads.
   */
  lemma HashComparesFirst72Bytes(p: string, q: string)
    ensures Matches(p, Hash(p))
    ensures Matches(q, Hash(p)) <==> BcryptInput(q) == BcryptInput(p)
  {
  }

  /** Every character of `s` is ASCII. */
  predicate IsAscii(s: string)
  {
    forall i :: 0 <= i < |s| ==> s[i] as int < 0x80
  }

  /** Every character of `s` is ASCII other than NUL. */
  predicate IsNonNulAscii(s: string)
  {
    forall i :: 0 <= i < |s| ==> 0 < s[i] as int < 0x80
  }

  /** The UTF-8 encoding of ASCII text is one byte per character, the character's code. */
  lemma {:induction false} Utf8Ascii(s: string)
    requires IsAscii(s)
    ensures |Utf8(s)| == |s|
    ensures forall i :: 0 <= i < |s| ==> Utf8(s)[i] == s[i] as int
  {
    if s != [] {
      assert IsAscii(s[1..]) by {
        forall i | 0 <= i < |s[1..]| ensures s[1..][i] as int < 0x80 {
          assert s[1..][i] == s[i + 1];
        }
      }
      Utf8Ascii(s[1..]);
    }
  }

  /**
   * An ASCII password of at most 72 characters and without NUL is matched by its own hash
   * and by no other such password.
   */
  lemma ShortAsciiMatchesOnlyItself(p: string, q: string)
    requires IsNonNulAscii(p) && IsNonNulAscii(q)
    requires |p| <= BcryptMaxBytes && |q| <= BcryptMaxBytes
    ensures Matches(q, Hash(p)) <==> q == p
  {
    if Matches(q, Hash(p)) {
      ShortInputsFixLength(p, q);
      ShortInputsFixLength(q, p);
      Utf8Ascii(p);
      Utf8Ascii(q);
      forall i | 0 <= i < |p| ensures q[i] == p[i] {
        assert BcryptInput(p)[i] == BcryptKey(p)[i] == Utf8(p)[i];
        assert BcryptInput(q)[i] == BcryptKey(q)[i] == Utf8(q)[i];
      }
    }
  }

  /** Two such passwords read as the same 72 bytes cannot have `p` shorter than `q`. */
  lemma ShortInputsFixLength(p: string, q: string)
    requires IsNonNulAscii(p) && IsNonNulAscii(q)
    requires |p| <= BcryptMaxBytes && |q| <= BcryptMaxBytes
    requires BcryptInput(p) == BcryptInput(q)
    ensures |p| >= |q|
  {
    Utf8Ascii(p);
    Utf8Ascii(q);
  }

  /**
   * Passwords that agree on their first 72 bytes match the same hash: a password of 73
   * `a`s is matched by 72 `a`s followed by `b`.
   */
  lemma LongPasswordsCollide()
    ensures var p, q := seq(73, _ => 'a'), seq(72, _ => 'a') + ['b'];
      p != q && Matches(q, Hash(p))
  {
    var p, q := seq(73, _ => 'a'), seq(72, _ => 'a') + ['b'];
    assert p[72] != q[72];
    assert IsAscii(p) && IsAscii(q);
    Utf8Ascii(p);
    Utf8Ascii(q);
    assert Utf8(p)[..72] == Utf8(q)[..72] by {
      forall i | 0 <= i < 72 ensures Utf8(p)[i] == Utf8(q)[i] {
        assert p[i] == q[i];
      }
    }
  }

  /**
   * bcryptjs hashes the key with its NUL repeated, so `"a"` and `"a\0a"` are read as the
   * same bytes, `61 00 61 00 ...`, and either matches the other's hash.
   */
  lemma NulPasswordsCollide()
    ensures var p, q := "a", "a\0a";
      p != q && Matches(q, Hash(p)) && Matches(p, Hash(q))
  {
    var p, q := "a", "a\0a";
    assert IsAscii(p) && IsAscii(q);
    Utf8Ascii(p);
    Utf8Ascii(q);
    assert BcryptKey(p) == [97, 0];
    assert BcryptKey(q) == [97, 0, 97, 0];
    var bp, bq := BcryptInput(p), BcryptInput(q);
    forall i | 0 <= i < BcryptMaxBytes ensures bp[i] == bq[i] {
      PeriodTwoFour(bp, bq, i);
    }
  }

  /** A sequence of period 2 and one of period 4 that agree on their first four bytes agree everywhere. */
  lemma {:induction false} PeriodTwoFour(bp: seq<byte>, bq: seq<byte>, i: nat)
    requires |bp| == |bq| >= 4 && i < |bp|
    requires bq[0] == bp[0] && bq[1] == bp[1] && bq[2] == bp[0] && bq[3] == bp[1]
    requires forall j :: 2 <= j < |bp| ==> bp[j] == bp[j - 2]
    requires forall j :: 4 <= j < |bq| ==> bq[j] == bq[j - 4]
    ensures bp[i] == bq[i]
    decreases i
  {
    if i >= 4 {
      PeriodTwoFour(bp, bq, i - 4);
      assert bp[i] == bp[i - 2] == bp[i - 4];
    } else if i >= 2 {
      assert bp[i] == bp[i - 2];
    }
  }

  // ---------------------------------------------------------------- refresh tokens

  type byte = b: int | 0 <= b < 256

  /** Number of random bytes in a refresh token: `crypto.randomBytes(64)`. */
  const RefreshTokenBytes: nat := 64

  /** The lower-case hex digit of a nibble. */
  function HexDigit(v: nat): (c: char)
    requires v < 16
  {
    if v < 10 then '0' + v as char else 'a' + (v - 10) as char
  }

  predicate IsHexDigit(c: char)
  {
    '0' <= c <= '9' || 'a' <= c <= 'f'
  }

  /** `buffer.toString('hex')`: two lower-case hex digits per byte, high nibble first. */
  function HexEncode(bytes: seq<byte>): (s: string)
    ensures |s| == 2 * |bytes|
    ensures forall i :: 0 <= i < |s| ==> IsHexDigit(s[i])
  {
    if bytes == [] then ""
    else [HexDigit(bytes[0] / 16), HexDigit(bytes[0] % 16)] + HexEncode(bytes[1..])
  }

  /** The value of a lower-case hex digit: the inverse of `HexDigit`. */
  function NibbleOf(c: char): (v: nat)
    requires IsHexDigit(c)
    ensures v < 16 && HexDigit(v) == c
  {
    if '0' <= c <= '9' then c as nat - '0' as nat else c as nat - 'a' as nat + 10
  }

  /** The bytes a hex text stands for. */
  function HexDecode(s: string): (bytes: seq<byte>)
    requires |s| % 2 == 0
    requires forall i :: 0 <= i < |s| ==> IsHexDigit(s[i])
    ensures |bytes| == |s| / 2
  {
    if s == [] then []
    else [NibbleOf(s[0]) * 16 + NibbleOf(s[1])] + HexDecode(s[2..])
  }

  /** Decoding the hex text of some bytes gives the bytes back, so distinct bytes give distinct tokens. */
  lemma {:induction false} HexRoundTrip(bytes: seq<byte>)
    ensures HexDecode(HexEncode(bytes)) == bytes
  {
    if bytes != [] {
      var s := HexEncode(bytes);
      var b := bytes[0];
      var hi, lo := b / 16, b % 16;
      assert s[0] == HexDigit(hi) && s[1] == HexDigit(lo);
      assert s[2..] == HexEncode(bytes[1..]);
      HexRoundTrip(bytes[1..]);
      assert NibbleOf(s[0]) == hi && NibbleOf(s[1]) == lo;
      assert HexDecode(s) == [b] + bytes[1..];
    }
  }
}
