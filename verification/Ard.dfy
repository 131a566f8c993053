/** Apple's login exchange: Diffie-Hellman, a credential block, and AES in ECB mode. */
module Ard {
  import opened Bytes
  import opened Grid

  const CREDENTIAL_LEN: nat := 128
  const PASSWORD_OFFSET: nat := 64
  const FIELD_MAX: nat := PASSWORD_OFFSET - 1
  const MIN_KEY_LEN: nat := 64
  const MAX_KEY_LEN: nat := 1024

  datatype ArdError = FieldTooLong | BadKeyLength
  datatype Outcome<T> = Ok(value: T) | Err(error: ArdError)

  /** The primitives the exchange is built on: MD5, and AES on one 16-byte block. */
  datatype Primitives = Primitives(
    md5: seq<byte> -> seq<byte>,
    encrypt: (seq<byte>, seq<byte>) -> seq<byte>,
    decrypt: (seq<byte>, seq<byte>) -> seq<byte>)

  /** Decrypting a block under the key it was encrypted with gives it back. */
  ghost predicate Invertible(c: Primitives) {
    forall key, block | |block| == 16 ::
      |c.encrypt(key, block)| == 16 && |c.decrypt(key, block)| == 16 && c.decrypt(key, c.encrypt(key, block)) == block
  }

  // ---------------------------------------------------------------- numbers

  function Power(b: nat, e: nat): (p: nat) {
    if e == 0 then 1 else b * Power(b, e - 1)
  }

  /** `BigUint::modpow`. */
  function ModPow(b: nat, e: nat, m: nat): (r: nat)
    requires m > 0
    ensures r < m
  {
    Power(b, e) % m
  }

  /** `BigUint::to_bytes_be`: no leading zeros, but zero is one zero byte. */
  function ToBytes(n: nat): (b: seq<byte>)
    ensures |b| > 0
  {
    if n < 256 then [n] else ToBytes(n / 256) + [n % 256]
  }

  /** `pad_be`. */
  function Padded(bytes: seq<byte>, width: nat): (b: seq<byte>)
    ensures |b| == Max(|bytes|, width)
  {
    if |bytes| >= width then bytes else seq(width - |bytes|, _ => 0) + bytes
  }

  lemma {:induction false} FromBeZeros(k: nat, b: seq<byte>)
    ensures FromBe(seq<byte>(k, _ => 0) + b) == FromBe(b)
    decreases |b|, k
  {
    var s: seq<byte> := seq<byte>(k, _ => 0);
    if |b| > 0 {
      assert (s + b)[..|s + b| - 1] == s + b[..|b| - 1];
      FromBeZeros(k, b[..|b| - 1]);
    } else if k > 0 {
      assert (s + b)[..|s + b| - 1] == seq<byte>(k - 1, _ => 0) + b;
      FromBeZeros(k - 1, b);
    } else {
      assert s + b == b;
    }
  }

  lemma {:induction false} FromToBytes(n: nat)
    ensures FromBe(ToBytes(n)) == n
  {
    if n < 256 {
      assert [n][..0] == [];
    } else {
      FromToBytes(n / 256);
      var b := ToBytes(n);
      assert b[..|b| - 1] == ToBytes(n / 256);
    }
  }

  /** A number below `256^width` takes at most `width` bytes. */
  lemma {:induction false} ToBytesFits(n: nat, width: nat)
    requires n < Pow256(width) && width > 0
    ensures |ToBytes(n)| <= width
    decreases width
  {
    if n >= 256 {
      assert width > 1;
      DivMod(n, 256);
      ToBytesFits(n / 256, width - 1);
    }
  }

  /** A padded number has exactly its field's width and means the same number. */
  lemma PaddedIsLossless(n: nat, width: nat)
    requires n < Pow256(width) && width > 0
    ensures |Padded(ToBytes(n), width)| == width && FromBe(Padded(ToBytes(n), width)) == n
  {
    ToBytesFits(n, width);
    FromToBytes(n);
    if |ToBytes(n)| < width { FromBeZeros(width - |ToBytes(n)|, ToBytes(n)); }
  }

  // ---------------------------------------------------------------- the two ends agree

  lemma {:induction false} PowerAdd(b: nat, x: nat, y: nat)
    ensures Power(b, x + y) == Power(b, x) * Power(b, y)
    decreases x
  {
    if x > 0 {
      PowerAdd(b, x - 1, y);
      Assoc(b, Power(b, x - 1), Power(b, y));
    }
  }

  lemma Assoc(a: nat, b: nat, c: nat)
    ensures a * (b * c) == (a * b) * c
  {
  }

  lemma {:induction false} PowerMul(b: nat, x: nat, y: nat)
    ensures x * y >= 0 && Power(Power(b, x), y) == Power(b, x * y)
    decreases y
  {
    MulMono(0, y, x);
    if y > 0 {
      PowerMul(b, x, y - 1);
      assert x * y == x + x * (y - 1);
      PowerAdd(b, x, x * (y - 1));
    }
  }

  lemma ModTimes(a: nat, b: nat, m: nat)
    requires m > 0
    ensures ((a % m) * b) % m == (a * b) % m
  {
    DivMod(a, m);
    var q, r := a / m, a % m;
    DivMod(r * b, m);
    assert a * b == (q * b + r * b / m) * m + r * b % m by {
      assert a * b == (q * m) * b + r * b;
      assert (q * m) * b == (q * b) * m;
      assert (q * b + r * b / m) * m == (q * b) * m + (r * b / m) * m;
    }
    DivModUnique(a * b, m, q * b + r * b / m, r * b % m);
  }

  lemma {:induction false} PowerOfMod(b: nat, e: nat, m: nat)
    requires m > 0
    ensures Power(b % m, e) % m == Power(b, e) % m
  {
    if e > 0 {
      var p, q := Power(b % m, e - 1), Power(b, e - 1);
      PowerOfMod(b, e - 1, m);
      PowerStep(b, e);
      PowerStep(b % m, e);
      hide Power;
      ModProduct(b, p, q, m);
    }
  }

  lemma PowerStep(b: nat, e: nat)
    requires e > 0
    ensures Power(b, e) == b * Power(b, e - 1)
  {
  }

  /** Two factors that agree modulo `m` give products that do, and so does reducing the other factor. */
  lemma ModProduct(b: nat, p: nat, q: nat, m: nat)
    requires m > 0 && p % m == q % m
    ensures ((b % m) * p) % m == (b * q) % m
  {
    ModTimes(b, p, m);
    ModTimes(p, b, m);
    ModTimes(q, b, m);
    Flip(b, p);
    Flip(b, q);
  }

  lemma Flip(a: nat, b: nat)
    ensures a * b == b * a
  {
  }

  /** Both ends arrive at the same secret, for any generator, exponents and non-zero modulus. */
  lemma SecretIsShared(g: nat, x: nat, y: nat, m: nat)
    requires m > 0
    ensures ModPow(ModPow(g, x, m), y, m) == ModPow(ModPow(g, y, m), x, m)
  {
    PowerOfMod(Power(g, x), y, m);
    PowerOfMod(Power(g, y), x, m);
    PowerMul(g, x, y);
    PowerMul(g, y, x);
  }

  // ---------------------------------------------------------------- the source's functions

  function DhPublic(generator: u32, prime: seq<byte>, private: seq<byte>): seq<byte>
    requires FromBe(prime) > 0
  {
    Padded(ToBytes(ModPow(generator, FromBe(private), FromBe(prime))), |prime|)
  }

  function DhShared(peer: seq<byte>, prime: seq<byte>, private: seq<byte>): seq<byte>
    requires FromBe(prime) > 0
  {
    Padded(ToBytes(ModPow(FromBe(peer), FromBe(private), FromBe(prime))), |prime|)
  }

  lemma PublicIsLossless(generator: u32, prime: seq<byte>, private: seq<byte>)
    requires FromBe(prime) > 0
    ensures |DhPublic(generator, prime, private)| == |prime|
    ensures FromBe(DhPublic(generator, prime, private)) == ModPow(generator, FromBe(private), FromBe(prime))
  {
    FromBeBound(prime);
    PaddedIsLossless(ModPow(generator, FromBe(private), FromBe(prime)), |prime|);
  }

  /** Powers multiply out: none is one, one is the base, and exponents add. */
  lemma PowerIsPower(b: nat, x: nat, y: nat)
    ensures Power(b, 0) == 1 && Power(b, 1) == b && Power(b, x + y) == Power(b, x) * Power(b, y)
  {
    PowerAdd(b, x, y);
  }

  /** The bytes sent and the bytes kept are the Diffie-Hellman numbers, each in exactly the modulus's length:
      the generator to the private exponent, and whatever the peer sent to the private exponent; and what an
      honest peer sent makes that the generator to the product of the two exponents. */
  lemma SecretIsDiffieHellman(generator: u32, prime: seq<byte>, private: seq<byte>, peer: seq<byte>, other: seq<byte>)
    requires FromBe(prime) > 0
    ensures |DhPublic(generator, prime, private)| == |prime| == |DhShared(peer, prime, private)|
    ensures FromBe(DhPublic(generator, prime, private)) == Power(generator, FromBe(private)) % FromBe(prime)
    ensures FromBe(DhShared(peer, prime, private)) == Power(FromBe(peer), FromBe(private)) % FromBe(prime)
    ensures FromBe(private) * FromBe(other) >= 0
    ensures FromBe(DhShared(DhPublic(generator, prime, other), prime, private))
         == Power(generator, FromBe(private) * FromBe(other)) % FromBe(prime)
  {
    hide FromBe, Power;
    SharedIsLossless(peer, prime, private);
    SharedIsLossless(DhPublic(generator, prime, other), prime, private);
    PublicIsLossless(generator, prime, private);
    PublicIsLossless(generator, prime, other);
    var x, y, m := FromBe(private), FromBe(other), FromBe(prime);
    PowerOfMod(Power(generator, y), x, m);
    PowerMul(generator, y, x);
    Flip(x, y);
  }

  lemma SharedIsLossless(peer: seq<byte>, prime: seq<byte>, private: seq<byte>)
    requires FromBe(prime) > 0
    ensures |DhShared(peer, prime, private)| == |prime|
    ensures FromBe(DhShared(peer, prime, private)) == ModPow(FromBe(peer), FromBe(private), FromBe(prime))
  {
    FromBeBound(prime);
    PaddedIsLossless(ModPow(FromBe(peer), FromBe(private), FromBe(prime)), |prime|);
  }

  /** The secret each end computes from the other's public bytes is the same byte string. */
  lemma SharedBytesAgree(generator: u32, prime: seq<byte>, client: seq<byte>, server: seq<byte>)
    requires FromBe(prime) > 0
    ensures DhShared(DhPublic(generator, prime, server), prime, client)
         == DhShared(DhPublic(generator, prime, client), prime, server)
  {
    PublicIsLossless(generator, prime, client);
    PublicIsLossless(generator, prime, server);
    SecretIsShared(generator, FromBe(client), FromBe(server), FromBe(prime));
  }

  /** ECB over whole 16-byte blocks; a short tail is left as it is. */
  function Ecb(f: (seq<byte>, seq<byte>) -> seq<byte>, key: seq<byte>, data: seq<byte>): (r: seq<byte>)
    decreases |data|
  {
    if |data| < 16 then data else f(key, data[..16]) + Ecb(f, key, data[16..])
  }

  lemma {:induction false} EcbRoundTrip(c: Primitives, key: seq<byte>, data: seq<byte>)
    requires Invertible(c)
    ensures |Ecb(c.encrypt, key, data)| == |data|
    ensures Ecb(c.decrypt, key, Ecb(c.encrypt, key, data)) == data
    decreases |data|
  {
    if |data| >= 16 {
      EcbRoundTrip(c, key, data[16..]);
      var sealed := Ecb(c.encrypt, key, data);
      assert |c.encrypt(key, data[..16])| == 16;
      assert sealed[..16] == c.encrypt(key, data[..16]) && sealed[16..] == Ecb(c.encrypt, key, data[16..]);
      assert data[..16] + data[16..] == data;
    }
  }

  /** Block by block: every whole 16-byte block is the cipher's, and a short tail is what it was. */
  lemma {:induction false} EcbBlocks(f: (seq<byte>, seq<byte>) -> seq<byte>, key: seq<byte>, data: seq<byte>, k: nat)
    requires forall block :: |block| == 16 ==> |f(key, block)| == 16
    ensures |Ecb(f, key, data)| == |data|
    ensures 16 * k + 16 <= |data| ==> Ecb(f, key, data)[16 * k..16 * k + 16] == f(key, data[16 * k..16 * k + 16])
    ensures 16 * k <= |data| < 16 * k + 16 ==> Ecb(f, key, data)[16 * k..] == data[16 * k..]
    decreases |data|
  {
    if |data| >= 16 {
      var head, tail := data[..16], data[16..];
      var r := Ecb(f, key, tail);
      assert Ecb(f, key, data) == f(key, head) + r;
      if k == 0 {
        EcbBlocks(f, key, tail, 0);
        assert data[16 * k..16 * k + 16] == head;
      } else {
        EcbBlocks(f, key, tail, k - 1);
        var at := 16 * (k - 1);
        if at + 16 <= |tail| { assert tail[at..at + 16] == data[at + 16..at + 32]; }
        if at <= |tail| < at + 16 { assert tail[at..] == data[at + 16..]; }
      }
    }
  }

  /** The credential block: each field and its NUL laid over the filler. */
  function Block(username: seq<byte>, password: seq<byte>, filler: seq<byte>): (b: seq<byte>)
    requires |username| <= FIELD_MAX && |password| <= FIELD_MAX && |filler| == CREDENTIAL_LEN
    ensures |b| == CREDENTIAL_LEN
  {
    Splice(Splice(filler, 0, username + [0]), PASSWORD_OFFSET, password + [0])
  }

  function Pack(username: seq<byte>, password: seq<byte>, filler: seq<byte>): Outcome<seq<byte>>
    requires |filler| == CREDENTIAL_LEN
  {
    if |username| > FIELD_MAX || |password| > FIELD_MAX then Err(FieldTooLong)
    else Ok(Block(username, password, filler))
  }

  /** The bytes before the first NUL. */
  function UpToNul(b: seq<byte>): (r: seq<byte>)
    ensures r <= b
  {
    if |b| == 0 || b[0] == 0 then [] else [b[0]] + UpToNul(b[1..])
  }

  function Unpack(block: seq<byte>): (seq<byte>, seq<byte>)
    requires |block| == CREDENTIAL_LEN
  {
    (UpToNul(block[..PASSWORD_OFFSET]), UpToNul(block[PASSWORD_OFFSET..]))
  }

  lemma {:induction false} UpToNulStops(field: seq<byte>, rest: seq<byte>)
    ensures UpToNul(field + [0] + rest) == UpToNul(field)
  {
    var b := field + [0] + rest;
    if |field| > 0 && field[0] != 0 {
      UpToNulStops(field[1..], rest);
      assert b[1..] == field[1..] + [0] + rest;
    }
  }

  /** A field comes back whole exactly when it has no NUL of its own. */
  lemma {:induction false} WholeIffNulFree(field: seq<byte>)
    ensures UpToNul(field) == field <==> 0 !in field
  {
    if |field| > 0 {
      WholeIffNulFree(field[1..]);
      assert field == [field[0]] + field[1..];
      if field[0] != 0 && UpToNul(field) == field {
        assert UpToNul(field)[1..] == UpToNul(field[1..]);
      }
    }
  }

  lemma BlockParts(username: seq<byte>, password: seq<byte>, filler: seq<byte>)
    requires |username| <= FIELD_MAX && |password| <= FIELD_MAX && |filler| == CREDENTIAL_LEN
    ensures var b := Block(username, password, filler);
      && b[..PASSWORD_OFFSET] == username + [0] + filler[|username| + 1..PASSWORD_OFFSET]
      && b[PASSWORD_OFFSET..] == password + [0] + filler[PASSWORD_OFFSET + |password| + 1..]
  {
    var first := Splice(filler, 0, username + [0]);
    assert first[..PASSWORD_OFFSET] == username + [0] + filler[|username| + 1..PASSWORD_OFFSET];
    var after := PASSWORD_OFFSET + |password + [0]|;
    assert first[after..] == filler[after..];
    SpliceParts(first, PASSWORD_OFFSET, password + [0]);
  }

  lemma SpliceParts(s: seq<byte>, at: nat, part: seq<byte>)
    requires at + |part| <= |s|
    ensures Splice(s, at, part)[..at] == s[..at] && Splice(s, at, part)[at..] == part + s[at + |part|..]
  {
  }

  lemma UnpackPacked(username: seq<byte>, password: seq<byte>, filler: seq<byte>)
    requires |username| <= FIELD_MAX && |password| <= FIELD_MAX && |filler| == CREDENTIAL_LEN
    ensures Unpack(Block(username, password, filler)) == (UpToNul(username), UpToNul(password))
  {
    BlockParts(username, password, filler);
    hide UpToNul, Block;
    UpToNulStops(username, filler[|username| + 1..PASSWORD_OFFSET]);
    UpToNulStops(password, filler[PASSWORD_OFFSET + |password| + 1..]);
  }

  /** The block Apple's server takes apart: 128 bytes, the user name from byte 0 and the password from byte
      64, each ended by a NUL and so at most 63 long, and the filler wherever neither reaches. */
  lemma BlockLayout(username: seq<byte>, password: seq<byte>, filler: seq<byte>)
    requires |filler| == 128
    ensures |username| > 63 || |password| > 63 <==> Pack(username, password, filler) == Err(FieldTooLong)
    ensures |username| <= 63 && |password| <= 63 ==>
      && Pack(username, password, filler).Ok?
      && var b := Pack(username, password, filler).value; var (u, p) := (|username|, |password|);
         && |b| == 128 && b[..u] == username && b[u] == 0 && b[u + 1..64] == filler[u + 1..64]
         && b[64..64 + p] == password && b[64 + p] == 0 && b[65 + p..] == filler[65 + p..]
  {
  }

  function Response(c: Primitives, generator: u32, prime: seq<byte>, serverPublic: seq<byte>,
                    username: seq<byte>, password: seq<byte>, private: seq<byte>, filler: seq<byte>): Outcome<seq<byte>>
    requires FromBe(prime) > 0 && |filler| == CREDENTIAL_LEN
  {
    if !(MIN_KEY_LEN <= |prime| <= MAX_KEY_LEN) || |serverPublic| != |prime| then Err(BadKeyLength)
    else
      match Pack(username, password, filler)
      case Err(e) => Err(e)
      case Ok(block) =>
        Ok(Ecb(c.encrypt, c.md5(DhShared(serverPublic, prime, private)), block) + DhPublic(generator, prime, private))
  }

  /** What the server makes of a response: the credentials it unpacks. */
  function Received(c: Primitives, prime: seq<byte>, serverPrivate: seq<byte>, response: seq<byte>)
    : (seq<byte>, seq<byte>)
    requires FromBe(prime) > 0 && |response| == CREDENTIAL_LEN + |prime| && Invertible(c)
  {
    var key := c.md5(DhShared(response[CREDENTIAL_LEN..], prime, serverPrivate));
    EcbLength(c, key, response[..CREDENTIAL_LEN]);
    Unpack(Ecb(c.decrypt, key, response[..CREDENTIAL_LEN]))
  }

  lemma {:induction false} EcbLength(c: Primitives, key: seq<byte>, data: seq<byte>)
    requires Invertible(c)
    ensures |Ecb(c.decrypt, key, data)| == |data|
    decreases |data|
  {
    if |data| >= 16 {
      EcbLength(c, key, data[16..]);
      assert |c.decrypt(key, data[..16])| == 16;
    }
  }

  /** Whatever the challenge, an answer comes only from a group of an allowed length with a public key of
      that length; it exactly fills the server's two reads, ends with the client's public value, and its
      block opens, under the secret the client derived, to each field cut at its first NUL. */
  lemma AnswerOpens(c: Primitives, generator: u32, prime: seq<byte>, serverPublic: seq<byte>,
                    username: seq<byte>, password: seq<byte>, client: seq<byte>, filler: seq<byte>)
    requires Invertible(c) && FromBe(prime) > 0 && |filler| == CREDENTIAL_LEN
    ensures var r := Response(c, generator, prime, serverPublic, username, password, client, filler);
            r.Ok? ==>
              && 64 <= |prime| == |serverPublic| <= 1024 && |r.value| == 128 + |prime|
              && r.value[128..] == DhPublic(generator, prime, client)
              && FromBe(r.value[128..]) == Power(generator, FromBe(client)) % FromBe(prime)
              && var plain := Ecb(c.decrypt, c.md5(DhShared(serverPublic, prime, client)), r.value[..128]);
                 |plain| == 128 && Unpack(plain) == (UpToNul(username), UpToNul(password))
  {
    hide DhShared, DhPublic, Ecb, Block, UpToNul, Invertible, FromBe, Power, Unpack;
    PublicIsLossless(generator, prime, client);
    if |username| <= FIELD_MAX && |password| <= FIELD_MAX {
      var key := c.md5(DhShared(serverPublic, prime, client));
      var block := Block(username, password, filler);
      var sealed, public := Ecb(c.encrypt, key, block), DhPublic(generator, prime, client);
      EcbRoundTrip(c, key, block);
      assert (sealed + public)[..CREDENTIAL_LEN] == sealed && (sealed + public)[CREDENTIAL_LEN..] == public;
      UnpackPacked(username, password, filler);
    }
  }

  /** The whole exchange, for every generator, non-zero modulus of any length, pair of exponents and
      filler: the client answers exactly when the group's length is allowed and both fields fit; the
      server then ends up with each field cut at its first NUL, so with the very credentials exactly when
      they hold none. */
  lemma ExchangeRecovers(c: Primitives, generator: u32, prime: seq<byte>, client: seq<byte>, server: seq<byte>,
                         username: seq<byte>, password: seq<byte>, filler: seq<byte>)
    requires Invertible(c) && FromBe(prime) > 0 && |filler| == CREDENTIAL_LEN
    ensures var public := DhPublic(generator, prime, server);
            var r := Response(c, generator, prime, public, username, password, client, filler);
            if |prime| < 64 || |prime| > 1024 then r == Err(BadKeyLength)
            else if |username| > 63 || |password| > 63 then r == Err(FieldTooLong)
            else
              && r.Ok? && |r.value| == 128 + |prime|
              && Received(c, prime, server, r.value) == (UpToNul(username), UpToNul(password))
              && (Received(c, prime, server, r.value) == (username, password) <==> 0 !in username && 0 !in password)
  {
    hide DhShared, DhPublic, Ecb, Block, UpToNul, Invertible, FromBe, ModPow, Unpack;
    PublicIsLossless(generator, prime, server);
    PublicIsLossless(generator, prime, client);
    if MIN_KEY_LEN <= |prime| <= MAX_KEY_LEN && |username| <= FIELD_MAX && |password| <= FIELD_MAX {
      AnswerOpens(c, generator, prime, DhPublic(generator, prime, server), username, password, client, filler);
      SharedBytesAgree(generator, prime, client, server);
      WholeIffNulFree(username);
      WholeIffNulFree(password);
    }
  }

  // ---------------------------------------------------------------- the loops

  /** `aes_ecb_encrypt` and `aes_ecb_decrypt`: one 16-byte chunk at a time, in place. */
  method EcbInPlace(f: (seq<byte>, seq<byte>) -> seq<byte>, key: seq<byte>, data: array<byte>)
    requires forall block :: |block| == 16 ==> |f(key, block)| == 16
    modifies data
    ensures data[..] == Ecb(f, key, old(data[..]))
  {
    ghost var was := data[..];
    var at := 0;
    assert data[at..] == was;
    while at + 16 <= data.Length
      invariant 0 <= at <= data.Length
      invariant data[at..] == was[at..]
      invariant Ecb(f, key, was) == data[..at] + Ecb(f, key, was[at..])
    {
      ghost var done, tail := data[..at], was[at..];
      var sealed := f(key, data[at..at + 16]);
      assert data[at..at + 16] == tail[..16];
      assert tail[16..] == was[at + 16..];
      CopyFromSlice(data, at, sealed);
      assert data[..at + 16] == done + sealed;
      Regroup(done, sealed, Ecb(f, key, was[at + 16..]));
      at := at + 16;
    }
    assert data[..] == data[..at] + data[at..];
  }

  /** One field and its terminator, over whatever was there. */
  method LayField(block: array<byte>, at: nat, field: seq<byte>)
    requires at + |field| < block.Length
    modifies block
    ensures block[..] == Splice(old(block[..]), at, field + [0])
  {
    ghost var was := block[..];
    CopyFromSlice(block, at, field);
    block[at + |field|] := 0;
    OneMoreByte(was, at, field, 0);
  }

  lemma OneMoreByte(was: seq<byte>, at: nat, field: seq<byte>, b: byte)
    requires at + |field| < |was|
    ensures Splice(was, at, field)[at + |field| := b] == Splice(was, at, field + [b])
  {
  }

  /** `pack_credentials`, against `Pack`: two fields laid into a copy of the filler. */
  method PackCredentials(username: seq<byte>, password: seq<byte>, filler: seq<byte>)
      returns (failed: Option<ArdError>, block: array<byte>)
    requires |filler| == CREDENTIAL_LEN
    ensures fresh(block) && block.Length == CREDENTIAL_LEN
    ensures match Pack(username, password, filler)
            case Ok(b) => failed == None && block[..] == b
            case Err(e) => failed == Some(e)
  {
    hide Splice;
    block := new byte[CREDENTIAL_LEN](i requires 0 <= i < |filler| => filler[i]);
    if |username| > FIELD_MAX || |password| > FIELD_MAX {
      return Some(FieldTooLong), block;
    }
    assert block[..] == filler;
    LayField(block, 0, username);
    LayField(block, PASSWORD_OFFSET, password);
    failed := None;
  }

  lemma {:induction false} UpToFirst(bytes: seq<byte>, end: nat)
    requires end <= |bytes| && (forall i :: 0 <= i < end ==> bytes[i] != 0) && (end < |bytes| ==> bytes[end] == 0)
    ensures UpToNul(bytes) == bytes[..end]
    decreases end
  {
    if end > 0 {
      UpToFirst(bytes[1..], end - 1);
      assert bytes[..end] == [bytes[0]] + bytes[1..][..end - 1];
    }
  }

  /** `read_field`: everything before the first NUL, or all of it. */
  method ReadField(bytes: seq<byte>) returns (field: seq<byte>)
    ensures field == UpToNul(bytes)
  {
    var end := 0;
    while end < |bytes| && bytes[end] != 0
      invariant 0 <= end <= |bytes|
      invariant forall i :: 0 <= i < end ==> bytes[i] != 0
    {
      end := end + 1;
    }
    UpToFirst(bytes, end);
    field := bytes[..end];
  }

  /** `client_response`. */
  method ClientResponse(c: Primitives, generator: u32, prime: seq<byte>, serverPublic: seq<byte>,
                        username: seq<byte>, password: seq<byte>, private: seq<byte>, filler: seq<byte>)
    returns (r: Outcome<seq<byte>>)
    requires FromBe(prime) > 0 && |filler| == CREDENTIAL_LEN && Invertible(c)
    ensures r == Response(c, generator, prime, serverPublic, username, password, private, filler)
  {
    hide DhShared, DhPublic, Ecb, Block;
    if !(MIN_KEY_LEN <= |prime| <= MAX_KEY_LEN) || |serverPublic| != |prime| {
      return Err(BadKeyLength);
    }
    var key := c.md5(DhShared(serverPublic, prime, private));
    var failed, block := PackCredentials(username, password, filler);
    if failed.Some? {
      return Err(failed.value);
    }
    EcbInPlace(c.encrypt, key, block);
    r := Ok(block[..] + DhPublic(generator, prime, private));
  }

  /** The server's branch of the handshake: does the client hold the expected credentials? */
  method ServerAccepts(c: Primitives, prime: seq<byte>, serverPrivate: seq<byte>, block: array<byte>,
                       clientPublic: seq<byte>, username: seq<byte>, password: seq<byte>) returns (accepted: bool)
    requires FromBe(prime) > 0 && block.Length == CREDENTIAL_LEN && |clientPublic| == |prime| && Invertible(c)
    modifies block
    ensures accepted == (Received(c, prime, serverPrivate, old(block[..]) + clientPublic) == (username, password))
  {
    hide DhShared, Ecb, UpToNul;
    ghost var response := block[..] + clientPublic;
    assert response[..CREDENTIAL_LEN] == block[..] && response[CREDENTIAL_LEN..] == clientPublic;
    var key := c.md5(DhShared(clientPublic, prime, serverPrivate));
    EcbInPlace(c.decrypt, key, block);
    var user := ReadField(block[..PASSWORD_OFFSET]);
    var pass := ReadField(block[PASSWORD_OFFSET..]);
    assert block[..][..PASSWORD_OFFSET] == block[..PASSWORD_OFFSET];
    assert block[..][PASSWORD_OFFSET..] == block[PASSWORD_OFFSET..];
    accepted := user == username && pass == password;
  }
}
