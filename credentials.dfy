/** The password hasher (bcryptjs `genSalt`, `hash`, `compare`).

    bcrypt itself is a foreign library; it is modelled as an ideal
    one-way function of the 72 key bytes its key schedule consumes: a
    digest is a symbolic term that records the salt it was made with and
    its preimage, and the only thing in the model that ever looks at the
    preimage is Compare.  Those 72 bytes are read cyclically from the
    UTF-8 encoding of the password with a NUL byte appended, so two
    passwords that give the same 72 bytes match each other's digest; any
    two that give different bytes are told apart (collision resistance
    taken as exact). */
module Credentials {
  import opened Bytes
  import Utf8

  /** The cost factor passed to bcrypt.genSalt wherever a password is hashed. */
  const SaltRounds := 10

  datatype Salt = Salt(rounds: nat, random: seq<byte>)

  /** What a `password` field can hold: text exactly as a client sent it,
      or a bcrypt digest. */
  datatype Secret = Plain(text: string) | Digest(salt: Salt, preimage: string)

  /** bcrypt.genSalt(10): the cost is fixed, the random part is an input. */
  function GenSalt(random: seq<byte>): Salt {
    Salt(SaltRounds, random)
  }

  /** bcrypt.hash(password, salt). */
  function Hash(password: string, salt: Salt): (h: Secret)
    ensures h.Digest? && h.salt == salt
    ensures h != Plain(password)
  {
    Digest(salt, password)
  }

  /** The number of key bytes bcrypt's key schedule reads. */
  const MaxKeyBytes := 72

  /** The key bytes bcryptjs derives from a password (the `$2a$`
      variant): the UTF-8 bytes and a terminating NUL; only the first 72
      of them can ever be read. */
  function KeyBytes(password: string): (k: seq<byte>)
    ensures 0 < |k| <= MaxKeyBytes
    ensures |Utf8.Encode(password)| < MaxKeyBytes ==> k == Utf8.Encode(password) + [0]
    ensures |Utf8.Encode(password)| >= MaxKeyBytes ==> k == Utf8.Encode(password)[..MaxKeyBytes]
  {
    var b := Utf8.Encode(password) + [0];
    if |b| <= MaxKeyBytes then b else b[..MaxKeyBytes]
  }

  /** The 72 bytes the key schedule consumes from key bytes `b`: it reads
      them cyclically, starting over at the first byte when they run out,
      so a short key is repeated. */
  function Cycle(b: seq<byte>): (c: seq<byte>)
    requires |b| > 0
    ensures |c| == MaxKeyBytes
    ensures forall i :: 0 <= i < MaxKeyBytes ==> c[i] == b[i % |b|]
  {
    seq(MaxKeyBytes, i requires 0 <= i < MaxKeyBytes => b[i % |b|])
  }

  /** What bcrypt's key schedule reads from a password. */
  function Key(password: string): (k: seq<byte>)
    ensures |k| == MaxKeyBytes
  {
    Cycle(KeyBytes(password))
  }

  /** bcrypt.compare(password, stored): true when the password's key
      stream is the one the digest was made from.  A stored value that is
      not a digest answers false; bcryptjs does so when its length is not 60. */
  predicate Compare(password: string, stored: Secret) {
    stored.Digest? && Key(password) == Key(stored.preimage)
  }

  /** The hashing contract: a password matches its own digest, whatever the salt. */
  lemma HashThenCompare(password: string, salt: Salt)
    ensures Compare(password, Hash(password, salt))
  {
  }

  /** A password without U+0000. */
  predicate NulFree(s: string) {
    forall k :: 0 <= k < |s| ==> s[k] != '\0'
  }

  /** Two key byte strings, each ending in its only zero byte, that the
      cyclic reading cannot tell apart are equal: the shorter one's NUL
      sits where the longer one would need a nonzero byte. */
  lemma CyclesOfTerminatedKeys(k1: seq<byte>, k2: seq<byte>)
    requires 0 < |k1| <= |k2| <= MaxKeyBytes
    requires k1[|k1| - 1] == 0 && forall j :: 0 <= j < |k1| - 1 ==> k1[j] != 0
    requires k2[|k2| - 1] == 0 && forall j :: 0 <= j < |k2| - 1 ==> k2[j] != 0
    requires forall i :: 0 <= i < MaxKeyBytes ==> k1[i % |k1|] == k2[i % |k2|]
    ensures k1 == k2
  {
    forall j | 0 <= j < |k1|
      ensures k1[j] == k2[j]
    {
      SmallMod(j, |k1|);
      SmallMod(j, |k2|);
      assert k1[j % |k1|] == k2[j % |k2|];
    }
    assert k2[|k1| - 1] == 0;
    assert |k1| == |k2|;
  }

  /** An index below the modulus is its own remainder. */
  lemma SmallMod(j: int, n: int)
    requires 0 <= j < n
    ensures j % n == j
  {
  }

  /** A different password is rejected ("wrong password") as long as both
      fit in bcrypt's key with their terminator and neither holds U+0000. */
  lemma WrongPasswordRejected(password: string, other: string, salt: Salt)
    requires other != password
    requires |Utf8.Encode(password)| < MaxKeyBytes && |Utf8.Encode(other)| < MaxKeyBytes
    requires NulFree(password) && NulFree(other)
    ensures !Compare(other, Hash(password, salt))
  {
    if Key(other) == Key(password) {
      var k1, k2 := KeyBytes(other), KeyBytes(password);
      Utf8.EncodeNul(other);
      Utf8.EncodeNul(password);
      assert forall i :: 0 <= i < MaxKeyBytes ==> k1[i % |k1|] == k2[i % |k2|] by {
        forall i | 0 <= i < MaxKeyBytes ensures k1[i % |k1|] == k2[i % |k2|] {
          assert Cycle(k1)[i] == Cycle(k2)[i];
        }
      }
      if |k1| <= |k2| {
        CyclesOfTerminatedKeys(k1, k2);
      } else {
        CyclesOfTerminatedKeys(k2, k1);
      }
      assert Utf8.Encode(other) == k1[..|k1| - 1];
      Utf8.EncodeInjective(other, password);
    }
  }

  /** The cyclic reading lets a short password containing U+0000 collide:
      a password of six UTF-8 bytes, repeated after a U+0000, gives the
      same 72 bytes as the password itself, so it matches its digest. */
  lemma NulPasswordsCollide(p: string, salt: Salt)
    requires |Utf8.Encode(p)| == 6
    ensures p != p + "\0" + p
    ensures Compare(p + "\0" + p, Hash(p, salt))
  {
    var e := Utf8.Encode(p);
    Utf8.EncodeAppend(p, "\0");
    Utf8.EncodeAppend(p + "\0", p);
    assert Utf8.Encode("\0") == [0];
    assert KeyBytes(p + "\0" + p) == KeyBytes(p) + KeyBytes(p);
    CycleDoubled(KeyBytes(p));
  }

  /** Seven key bytes read twice over give the same stream as once. */
  lemma CycleDoubled(b: seq<byte>)
    requires |b| == 7
    ensures Cycle(b + b) == Cycle(b)
  {
    forall i | 0 <= i < MaxKeyBytes
      ensures Cycle(b + b)[i] == Cycle(b)[i]
    {
      var m := i % 14;
      assert m % 7 == i % 7;
      if m >= 7 {
        assert m % 7 == m - 7;
      }
    }
  }

  /** "abcdef" is six UTF-8 bytes, so "abcdef", U+0000, "abcdef" matches
      the digest of "abcdef": both give bcrypt the same 72 bytes. */
  lemma AbcdefCollides(salt: Salt)
    ensures Compare("abcdef\0abcdef", Hash("abcdef", salt))
  {
    assert Utf8.Encode("abcdef") == [97, 98, 99, 100, 101, 102];
    assert "abcdef\0abcdef" == "abcdef" + "\0" + "abcdef";
    NulPasswordsCollide("abcdef", salt);
  }

  /** Past the 72nd byte nothing counts: two passwords that share a prefix
      of 72 or more UTF-8 bytes match each other's digest. */
  lemma LongPasswordsCollide(prefix: string, tail: string, otherTail: string, salt: Salt)
    requires |Utf8.Encode(prefix)| >= MaxKeyBytes
    ensures Compare(prefix + tail, Hash(prefix + otherTail, salt))
  {
    Utf8.EncodeAppend(prefix, tail);
    Utf8.EncodeAppend(prefix, otherTail);
    var p := Utf8.Encode(prefix);
    assert (p + Utf8.Encode(tail))[..MaxKeyBytes] == p[..MaxKeyBytes];
    assert (p + Utf8.Encode(otherTail))[..MaxKeyBytes] == p[..MaxKeyBytes];
    assert KeyBytes(prefix + tail) == KeyBytes(prefix + otherTail);
  }

  /** Text that was never hashed matches nothing. */
  lemma PlainNeverMatches(password: string, text: string)
    ensures !Compare(password, Plain(text))
  {
  }
}
