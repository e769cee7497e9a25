/** Values shared by the account, password-reset and middleware models. */
module Basics {

  /** A request-body field that may be absent (`undefined` in the source). */
  datatype Option<+T> = None | Some(value: T)

  /** JavaScript truthiness of a string field of a request body: `!field` is
      false exactly when the field is present and not the empty string. */
  predicate Present(v: Option<string>)
  {
    v.Some? && v.value != ""
  }

  // ------------------------------------------------------------ bcrypt keys

  type Byte = b: int | 0 <= b < 256

  /** The UTF-8 encoding of one character. */
  function Utf8Char(c: char): (b: seq<Byte>)
    ensures 1 <= |b| <= 4
  {
    var n := c as int;
    if n < 0x80 then [n]
    else if n < 0x800 then [0xC0 + n / 64, 0x80 + n % 64]
    else if n < 0x10000 then [0xE0 + n / 4096, 0x80 + n / 64 % 64, 0x80 + n % 64]
    else [0xF0 + n / 262144, 0x80 + n / 4096 % 64, 0x80 + n / 64 % 64, 0x80 + n % 64]
  }

  /** The UTF-8 encoding of a string: bcrypt's input. */
  function Utf8(s: string): (b: seq<Byte>)
    ensures |s| <= |b| <= 4 * |s|
    decreases |s|
  {
    if s == [] then [] else Utf8Char(s[0]) + Utf8(s[1..])
  }

  /** The number of bytes of a password that bcrypt reads. */
  const KeyLength := 72

  /** The bytes of `password` that enter bcrypt's key schedule: the first
      72 bytes of its UTF-8 encoding, the rest being ignored. */
  function Key(password: string): (k: seq<Byte>)
    ensures |k| <= KeyLength
  {
    var b := Utf8(password);
    if |b| <= KeyLength then b else b[..KeyLength]
  }

  /** A password bcrypt reads in full: at most 72 bytes of UTF-8, and no NUL
      character (the native library stops at the first NUL byte). */
  predicate FitsKey(password: string)
  {
    |Utf8(password)| <= KeyLength && '\0' !in password
  }

  /** A stored bcrypt digest. Salting and the cost factor are not modelled:
      a digest is determined by the key bytes of the password it was made
      from, and it is a value of its own type, so a plaintext can never be
      stored in its place. */
  datatype PasswordHash = Digest(key: seq<Byte>)

  /** `bcrypt.hash(password, 10)`. */
  function Hash(password: string): PasswordHash
  {
    Digest(Key(password))
  }

  /** `bcrypt.compare(password, hash)`. */
  predicate Matches(password: string, hash: PasswordHash)
  {
    hash == Hash(password)
  }

  /** What the first byte of a character's encoding says about its length. */
  function LeadLength(b: Byte): nat
  {
    if b < 0x80 then 1 else if b < 0xE0 then 2 else if b < 0xF0 then 3 else 4
  }

  /** The code point a character's encoding stands for. */
  function CharValue(b: seq<Byte>): int
    requires 1 <= |b| <= 4
  {
    var b0, b1 := b[0] as int, if |b| > 1 then b[1] as int else 0;
    if |b| == 1 then b0
    else if |b| == 2 then (b0 - 0xC0) * 64 + (b1 - 0x80)
    else if |b| == 3 then (b0 - 0xE0) * 4096 + (b1 - 0x80) * 64 + (b[2] as int - 0x80)
    else (b0 - 0xF0) * 262144 + (b1 - 0x80) * 4096 + (b[2] as int - 0x80) * 64 + (b[3] as int - 0x80)
  }

  lemma DivDiv64(n: nat)
    ensures n / 64 / 64 == n / 4096 && n / 4096 / 64 == n / 262144
  {
  }

  /** The first byte gives the length of a character's encoding, and the
      bytes give the character back. */
  lemma Utf8CharDecodes(c: char)
    ensures LeadLength(Utf8Char(c)[0]) == |Utf8Char(c)|
    ensures CharValue(Utf8Char(c)) == c as int
  {
    DivDiv64(c as int);
  }

  /** UTF-8 is a prefix code: the encoding of the first character is
      recognised whatever follows it. */
  lemma Utf8CharPrefix(c1: char, c2: char, r1: seq<Byte>, r2: seq<Byte>)
    requires Utf8Char(c1) + r1 == Utf8Char(c2) + r2
    ensures c1 == c2 && r1 == r2
  {
    var b1, b2 := Utf8Char(c1), Utf8Char(c2);
    Utf8CharDecodes(c1);
    Utf8CharDecodes(c2);
    assert b1[0] == (b1 + r1)[0] == b2[0];
    assert b1 == (b1 + r1)[..|b1|] == b2;
    assert r1 == (b1 + r1)[|b1|..] == r2;
  }

  /** Distinct strings have distinct encodings. */
  lemma {:induction false} Utf8Injective(s: string, t: string)
    requires Utf8(s) == Utf8(t)
    ensures s == t
    decreases |s|
  {
    if s != [] {
      assert t != [];
      Utf8CharPrefix(s[0], t[0], Utf8(s[1..]), Utf8(t[1..]));
      Utf8Injective(s[1..], t[1..]);
      assert s == [s[0]] + s[1..] && t == [t[0]] + t[1..];
    }
  }

  lemma {:induction false} Utf8Append(a: string, b: string)
    ensures Utf8(a + b) == Utf8(a) + Utf8(b)
    decreases |a|
  {
    if a == [] {
      assert a + b == b;
    } else {
      assert (a + b)[0] == a[0] && (a + b)[1..] == a[1..] + b;
      Utf8Append(a[1..], b);
      calc {
        Utf8(a + b);
        Utf8Char(a[0]) + Utf8(a[1..] + b);
        Utf8Char(a[0]) + (Utf8(a[1..]) + Utf8(b));
        (Utf8Char(a[0]) + Utf8(a[1..])) + Utf8(b);
      }
    }
  }

  /** Among passwords bcrypt reads in full, a digest is accepted for the
      password it was made from and for no other. */
  lemma HashMatchesOnlyItsPassword(p: string, q: string)
    requires FitsKey(p) && FitsKey(q)
    ensures Matches(p, Hash(p))
    ensures Matches(q, Hash(p)) <==> p == q
  {
    if Matches(q, Hash(p)) {
      Utf8Injective(p, q);
    }
  }

  /** Beyond 72 bytes bcrypt reads nothing: two passwords that agree on
      their first 72 bytes are accepted for each other's digest. */
  lemma LongPasswordsShareDigest(p: string, a: string, b: string)
    requires |Utf8(p)| >= KeyLength
    ensures Matches(p + a, Hash(p + b))
  {
    var x := Utf8(p);
    Utf8Append(p, a);
    Utf8Append(p, b);
    assert (x + Utf8(a))[..KeyLength] == x[..KeyLength];
    assert (x + Utf8(b))[..KeyLength] == x[..KeyLength];
    assert Key(p + a) == x[..KeyLength] == Key(p + b);
  }
}
