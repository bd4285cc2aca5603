/** The client side of SRP-6a (RFC 5054), and the server it must agree with. */
module Srp {
  import opened Wrappers
  import opened ByteStrings
  import opened ModArith

  const N_BYTES: nat := 384

  // The 3072-bit group of RFC 5054, appendix A.
  const RFC5054_N_3072: nat :=
    0xFFFFFFFFFFFFFFFFC90FDAA22168C234C4C6628B80DC1CD129024E088A67CC74020BBEA63B139B22514A08798E3404DDEF9519B3CD3A431B302B0A6DF25F14374FE1356D6D51C245E485B576625E7EC6F44C42E9A637ED6B0BFF5CB6F406B7EDEE386BFB5A899FA5AE9F24117C4B1FE649286651ECE45B3DC2007CB8A163BF0598DA48361C55D39A69163FA8FD24CF5F83655D23DCA3AD961C62F356208552BB9ED529077096966D670C354E4ABC9804F1746C08CA18217C32905E462E36CE3BE39E772C180E86039B2783A2EC07A28FB5C55DF06F4C52C9DE2BCBF6955817183995497CEA956AE515D2261898FA051015728E5A8AAAC42DAD33170D04507A33A85521ABDF1CBA64ECFB850458DBEF0A8AEA71575D060C7DB3970F85A6E1E4C7ABF5AE8CDB0933D71E8C94E04A25619DCEE3D2261AD2EE6BF12FFA06D98A0864D87602733EC86A64521F2B18177B200CBBE117577A615D6C770988C0BAD946E208E24FA074E5AB3143DB5BFCE0FD108E4B82D120A93AD2CAFFFFFFFFFFFFFFFF

  // 256^N_BYTES, one more than the largest value of an N_BYTES field.
  const KEY_SPACE: nat := 0x1000000000000000000000000000000000000000000000000000000000000000000000000000000000000000000000000000000000000000000000000000000000000000000000000000000000000000000000000000000000000000000000000000000000000000000000000000000000000000000000000000000000000000000000000000000000000000000000000000000000000000000000000000000000000000000000000000000000000000000000000000000000000000000000000000000000000000000000000000000000000000000000000000000000000000000000000000000000000000000000000000000000000000000000000000000000000000000000000000000000000000000000000000000000000000000000000000000000000000000000000000000000000000000000000000000000000000000000000000000000000000000000000000000000000000000000000000000000000000000000000000000000000000000000000000000000000000000000000

  type Digest = s: Bytes | |s| == 64 witness Zeros(64)
  type Hash = Bytes -> Digest

  datatype Params = Params(n: nat, g: nat)
  type SrpParams = p: Params | p.n > 1 witness Params(2, 1)

  const DEFAULT_PARAMS: SrpParams := Params(RFC5054_N_3072, 5)

  datatype SrpClient = SrpClient(
    params: SrpParams, identity: Bytes, password: Bytes, privateKey: Bytes, publicKey: nat)

  datatype SrpChallenge = SrpChallenge(salt: Bytes, serverPublicKey: Bytes)

  datatype SrpProof = SrpProof(clientProof: Bytes, sharedSecret: Bytes, expectedServerProof: Bytes)

  datatype SrpError = ZeroServerKey | ZeroScrambler

  /** The big-endian form of a value, cut or zero-extended on the left to N_BYTES. */
  function PadToN(value: nat): (r: Bytes)
    ensures |r| == N_BYTES
  {
    var bytes := ToBeMinimal(value);
    if |bytes| >= N_BYTES then bytes[|bytes| - N_BYTES..] else Zeros(N_BYTES - |bytes|) + bytes
  }

  function XorByte(x: byte, y: byte): byte {
    ((x as bv8) ^ (y as bv8)) as int
  }

  function Xor(x: Digest, y: Digest): Digest {
    seq(64, i requires 0 <= i < 64 => XorByte(x[i], y[i]))
  }

  function ComputeX(hash: Hash, salt: Bytes, identity: Bytes, password: Bytes): nat {
    FromBe(hash(salt + hash(identity + Ascii(":") + password)))
  }

  function ComputeK(hash: Hash, params: SrpParams): nat {
    FromBe(hash(PadToN(params.n) + PadToN(params.g)))
  }

  function ComputeU(hash: Hash, clientKey: nat, serverKey: nat): nat {
    FromBe(hash(PadToN(clientKey) + PadToN(serverKey)))
  }

  /** What the client proof is the hash of, section 3 of RFC 2945. */
  function ProofText(hash: Hash, params: SrpParams, identity: Bytes, salt: Bytes,
                     clientKey: nat, serverKey: nat, sessionKey: Bytes): Bytes
  {
    Xor(hash(PadToN(params.n)), hash(ToBeMinimal(params.g))) + hash(identity) + salt
    + PadToN(clientKey) + PadToN(serverKey) + sessionKey
  }

  function ComputeM1(hash: Hash, params: SrpParams, identity: Bytes, salt: Bytes,
                     clientKey: nat, serverKey: nat, sessionKey: Bytes): Bytes
  {
    hash(ProofText(hash, params, identity, salt, clientKey, serverKey, sessionKey))
  }

  /** A client whose private key is the non-zero random number `a`. */
  function NewClient(params: SrpParams, identity: Bytes, password: Bytes, a: nat): SrpClient {
    SrpClient(params, identity, password, ToBeMinimal(a), ModPow(params.g, a, params.n))
  }

  /** B - k*g^x modulo n, without ever forming a negative number. */
  function ClientBase(n: nat, serverKey: nat, kgx: nat): nat
    requires n > 0 && kgx < n
  {
    if serverKey >= kgx then (serverKey - kgx) % n else (serverKey + n - kgx) % n
  }

  function ClientSecret(params: SrpParams, a: nat, u: nat, x: nat, k: nat, serverKey: nat): nat {
    var n := params.n;
    ModMul(k, ModPow(params.g, x, n), n);
    var kgx := (k * ModPow(params.g, x, n)) % n;
    ModPow(ClientBase(n, serverKey, kgx), (a + u * x) % (n - 1), n)
  }

  /** The secret a client computes for a salt and a server public key. */
  function SecretFor(hash: Hash, client: SrpClient, salt: Bytes, serverKey: nat): nat {
    ClientSecret(client.params, FromBe(client.privateKey), ComputeU(hash, client.publicKey, serverKey),
                 ComputeX(hash, salt, client.identity, client.password), ComputeK(hash, client.params),
                 serverKey)
  }

  /** The session key and the two proofs that follow from a secret. */
  function ProofFor(hash: Hash, client: SrpClient, salt: Bytes, serverKey: nat, secret: nat): SrpProof {
    var sharedSecret := hash(PadToN(secret));
    var m1 := ComputeM1(hash, client.params, client.identity, salt, client.publicKey, serverKey, sharedSecret);
    SrpProof(m1, sharedSecret, hash(PadToN(client.publicKey) + m1 + sharedSecret))
  }

  function ProcessChallenge(hash: Hash, client: SrpClient, challenge: SrpChallenge)
    : Result<SrpProof, SrpError>
  {
    var b := FromBe(challenge.serverPublicKey);
    if b % client.params.n == 0 then
      Err(ZeroServerKey)
    else
      var u := ComputeU(hash, client.publicKey, b);
      if u == 0 then
        Err(ZeroScrambler)
      else
        Ok(ProofFor(hash, client, challenge.salt, b, SecretFor(hash, client, challenge.salt, b)))
  }

  // ----- The server of RFC 5054, written independently of the client -----

  /** A server holds the verifier g^x of a password, never the password. */
  datatype SrpServer = SrpServer(params: SrpParams, identity: Bytes, salt: Bytes, verifier: nat, b: nat)

  /** PAD of section 2.5.3, over digits. */
  function Pad(value: nat): Bytes {
    Digits(value, 384)
  }

  /** x = H(s | H(I | ":" | P)), section 2.4. */
  function PrivateExponent(hash: Hash, salt: Bytes, identity: Bytes, password: Bytes): nat {
    FromBe(hash(salt + hash(identity + [58] + password)))
  }

  /** v = g^x, section 2.4. */
  function Enrol(hash: Hash, params: SrpParams, identity: Bytes, password: Bytes, salt: Bytes, b: nat)
    : SrpServer
  {
    SrpServer(params, identity, salt,
              ModPow(params.g, PrivateExponent(hash, salt, identity, password), params.n), b)
  }

  /** B = k*v + g^b with k = H(N | PAD(g)), section 2.5.3. */
  function ServerPublicKey(hash: Hash, server: SrpServer): nat {
    var n, g := server.params.n, server.params.g;
    (FromBe(hash(Pad(n) + Pad(g))) * server.verifier + ModPow(g, server.b, n)) % n
  }

  /** u = H(PAD(A) | PAD(B)), section 2.6. */
  function Scrambler(hash: Hash, clientKey: nat, serverKey: nat): nat {
    FromBe(hash(Pad(clientKey) + Pad(serverKey)))
  }

  /** (A * v^u)^b modulo n, section 2.6. */
  function ServerSecret(params: SrpParams, clientKey: nat, verifier: nat, u: nat, b: nat): nat {
    ModPow(clientKey * ModPow(verifier, u, params.n), b, params.n)
  }

  function ServerSessionKey(hash: Hash, server: SrpServer, clientKey: nat): Bytes {
    var u := Scrambler(hash, clientKey, ServerPublicKey(hash, server));
    hash(Pad(ServerSecret(server.params, clientKey, server.verifier, u, server.b)))
  }

  /** M = H(H(N) XOR H(g) | H(I) | s | A | B | K), section 3 of RFC 2945. */
  function ServerExpectedM1(hash: Hash, server: SrpServer, clientKey: nat): Bytes {
    var n, g := hash(Pad(server.params.n)), hash(Digits(server.params.g, Width(server.params.g)));
    hash(seq(64, i requires 0 <= i < 64 => ((n[i] as bv8) ^ (g[i] as bv8)) as int)
         + hash(server.identity) + server.salt + Pad(clientKey) + Pad(ServerPublicKey(hash, server))
         + ServerSessionKey(hash, server, clientKey))
  }

  /** H(A | M | K), section 3 of RFC 2945. */
  function ServerProof(hash: Hash, server: SrpServer, clientKey: nat): Bytes {
    hash(Pad(clientKey) + ServerExpectedM1(hash, server, clientKey)
         + ServerSessionKey(hash, server, clientKey))
  }

  /** The proof record a client must reach if it is to agree with the server. */
  function MutualProof(hash: Hash, server: SrpServer, clientKey: nat): SrpProof {
    SrpProof(ServerExpectedM1(hash, server, clientKey), ServerSessionKey(hash, server, clientKey),
             ServerProof(hash, server, clientKey))
  }

  /** What a group needs for the two sides to agree. */
  ghost predicate SoundGroup(params: SrpParams) {
    Prime(params.n) && params.g % params.n != 0
  }

  // ----- Properties -----

  /**
   * Either branch of the subtraction gives the residue of B - k*g^x. The second formula does so for every
   * key; the first would be negative without its guard.
   */
  lemma ClientBaseIsResidue(n: nat, serverKey: nat, kgx: nat)
    requires n > 0 && kgx < n
    ensures ClientBase(n, serverKey, kgx) == (serverKey - kgx) % n == (serverKey + n - kgx) % n
  {
    ModAddMultiple(serverKey - kgx, 1, n);
  }

  /** Both branches of the subtraction recover g^b from an honest server key. */
  lemma ClientBaseIsPower(n: nat, serverKey: nat, k: nat, v: nat, h: nat)
    requires n > 1 && h < n && serverKey % n == (k * v + h) % n
    ensures ClientBase(n, serverKey, (k * v) % n) == h
  {
    var kv := k * v;
    var kgx := kv % n;
    var q := (serverKey - (kv + h)) / n;
    CongruentDifference(serverKey, kv + h, n);
    assert serverKey == kv + h + q * n;
    var p := kv / n;
    assert kv == p * n + kgx;
    assert serverKey - kgx == (q + p) * n + h;
    DivModUnique(serverKey - kgx, q + p, h, n);
    DivModUnique(serverKey + n - kgx, q + p + 1, h, n);
  }

  /** (g^b)^(a + ux) is the server's (g^a * (g^x)^u)^b. */
  lemma ExponentsCommute(params: SrpParams, a: nat, b: nat, u: nat, x: nat)
    ensures
      var n := params.n;
      u * x >= 0 &&
      ServerSecret(params, ModPow(params.g, a, n), ModPow(params.g, x, n), u, b)
      == Pow(Pow(params.g, b), a + u * x) % n
  {
    var g, n := params.g, params.n;
    var clientKey, v := ModPow(g, a, n), ModPow(g, x, n);
    var vu := Pow(Pow(g, x), u);
    PowMod(Pow(g, x), u, n);
    assert ModPow(v, u, n) == vu % n;
    ModMul(Pow(g, a), vu, n);
    PowMul(g, x, u);
    PowAdd(g, a, x * u);
    var e := a + x * u;
    assert (clientKey * ModPow(v, u, n)) % n == Pow(g, e) % n;
    PowMod(clientKey * ModPow(v, u, n), b, n);
    PowMod(Pow(g, e), b, n);
    PowMul(g, e, b);
    PowMul(g, b, e);
    assert e * b == b * e;
  }

  /** The two sides compute the same secret, for every prime modulus and every exponent. */
  lemma KeyAgreement(params: SrpParams, a: nat, b: nat, u: nat, x: nat, k: nat, serverKey: nat)
    requires SoundGroup(params)
    requires serverKey % params.n
             == (k * ModPow(params.g, x, params.n) + ModPow(params.g, b, params.n)) % params.n
    ensures ClientSecret(params, a, u, x, k, serverKey)
            == ServerSecret(params, ModPow(params.g, a, params.n), ModPow(params.g, x, params.n), u, b)
  {
    var g, n := params.g, params.n;
    var h := ModPow(g, b, n);
    ClientBaseIsPower(n, serverKey, k, ModPow(g, x, n), h);
    PrimePower(n, g, b);
    PowNonNegative(g, b);
    ExponentsCommute(params, a, b, u, x);
    var e := a + u * x;
    PowMod(Pow(g, b), e % (n - 1), n);
    ReduceExponent(n, Pow(g, b), e);
  }

  lemma ServerKeyReduced(hash: Hash, server: SrpServer)
    ensures ServerPublicKey(hash, server) % server.params.n == ServerPublicKey(hash, server)
  {
    var n, g := server.params.n, server.params.g;
    var t := FromBe(hash(Pad(n) + Pad(g))) * server.verifier + ModPow(g, server.b, n);
    DivModUnique(t % n, 0, t % n, n);
  }

  /** The client's padding is PAD, whatever the size of the value. */
  lemma PadIsPad(value: nat)
    ensures PadToN(value) == Pad(value)
  {
    CutOrExtended(value, N_BYTES);
  }

  /** A client that knows the password computes the server's secret. */
  lemma SecretsAgree(hash: Hash, params: SrpParams, identity: Bytes, password: Bytes, salt: Bytes,
                     a: nat, b: nat)
    requires SoundGroup(params)
    ensures
      var server := Enrol(hash, params, identity, password, salt, b);
      var client := NewClient(params, identity, password, a);
      var serverKey := ServerPublicKey(hash, server);
      SecretFor(hash, client, salt, serverKey)
      == ServerSecret(params, client.publicKey, server.verifier,
                      Scrambler(hash, client.publicKey, serverKey), b)
  {
    var server := Enrol(hash, params, identity, password, salt, b);
    var client := NewClient(params, identity, password, a);
    var serverKey := ServerPublicKey(hash, server);
    ToBeMinimalValue(a);
    ServerKeyReduced(hash, server);
    PadIsPad(params.n);
    PadIsPad(params.g);
    PadIsPad(client.publicKey);
    PadIsPad(serverKey);
    ColonIs58();
    var x, u := PrivateExponent(hash, salt, identity, password), Scrambler(hash, client.publicKey, serverKey);
    KeyAgreement(params, a, b, u, x, FromBe(hash(Pad(params.n) + Pad(params.g))), serverKey);
  }

  lemma ColonIs58()
    ensures Ascii(":") == [58]
  {}

  /** The two hashed texts of the client proof are one, byte for byte. */
  lemma ProofTextsAgree(hash: Hash, server: SrpServer, clientKey: nat)
    ensures ComputeM1(hash, server.params, server.identity, server.salt, clientKey,
                      ServerPublicKey(hash, server), ServerSessionKey(hash, server, clientKey))
            == ServerExpectedM1(hash, server, clientKey)
  {
    var params := server.params;
    PadIsPad(params.n);
    PadIsPad(clientKey);
    PadIsPad(ServerPublicKey(hash, server));
    MinimalDigits(params.g);
    var n, g := hash(Pad(params.n)), hash(Digits(params.g, Width(params.g)));
    assert Xor(n, g) == seq(64, i requires 0 <= i < 64 => ((n[i] as bv8) ^ (g[i] as bv8)) as int);
  }

  /**
   * How a client that knows the password answers a server's challenge, however the key is written: it
   * refuses exactly a zero key or a zero scrambler, and otherwise its key and both of its proofs are the
   * server's.
   */
  lemma MutualProofs(hash: Hash, params: SrpParams, identity: Bytes, password: Bytes, salt: Bytes,
                     a: nat, b: nat, wireKey: Bytes)
    requires SoundGroup(params)
    requires FromBe(wireKey) == ServerPublicKey(hash, Enrol(hash, params, identity, password, salt, b))
    ensures
      var server := Enrol(hash, params, identity, password, salt, b);
      var client := NewClient(params, identity, password, a);
      ProcessChallenge(hash, client, SrpChallenge(salt, wireKey))
      == if ServerPublicKey(hash, server) == 0 then Err(ZeroServerKey)
         else if Scrambler(hash, client.publicKey, ServerPublicKey(hash, server)) == 0 then Err(ZeroScrambler)
         else Ok(MutualProof(hash, server, client.publicKey))
  {
    var server := Enrol(hash, params, identity, password, salt, b);
    var clientKey := NewClient(params, identity, password, a).publicKey;
    ServerKeyReduced(hash, server);
    SecretsAgree(hash, params, identity, password, salt, a, b);
    PadIsPad(clientKey);
    PadIsPad(ServerPublicKey(hash, server));
    PadIsPad(ServerSecret(params, clientKey, server.verifier,
                          Scrambler(hash, clientKey, ServerPublicKey(hash, server)), b));
    ProofTextsAgree(hash, server, clientKey);
  }

  ghost predicate Divides(n: nat, value: nat) {
    exists q: nat :: value == q * n
  }

  /** Whatever the server sends, its key is refused exactly when the modulus divides it or the scrambler is zero. */
  lemma RefusedIff(hash: Hash, client: SrpClient, challenge: SrpChallenge)
    ensures
      var b := FromBe(challenge.serverPublicKey);
      var r := ProcessChallenge(hash, client, challenge);
      && (r == Err(ZeroServerKey) <==> Divides(client.params.n, b))
      && (r.Ok? <==> !Divides(client.params.n, b) && Scrambler(hash, client.publicKey, b) != 0)
  {
    var b, n := FromBe(challenge.serverPublicKey), client.params.n;
    PadIsPad(client.publicKey);
    PadIsPad(b);
    if q: nat :| b == q * n {
      MultipleVanishes(b, q, n);
    }
    if b % n == 0 {
      assert b == b / n * n;
    }
  }

  lemma TimesTwice(x: nat, p: nat, q: nat)
    ensures x * (p * q) == (x * p) * q
  {}

  lemma {:induction false} PowerOf256Add(i: nat, j: nat)
    ensures PowerOf256(i + j) == PowerOf256(i) * PowerOf256(j)
  {
    if i > 0 {
      PowerOf256Add(i - 1, j);
      TimesTwice(256, PowerOf256(i - 1), PowerOf256(j));
      assert PowerOf256(i + j) == 256 * PowerOf256(i - 1 + j);
      assert PowerOf256(i) == 256 * PowerOf256(i - 1);
    }
  }

  lemma PowerOf256Double(i: nat, p: nat)
    requires PowerOf256(i) == p
    ensures PowerOf256(2 * i) == p * p
  {
    PowerOf256Add(i, i);
  }

  lemma ByteWidthPower(k: nat)
    requires k == 384
    ensures PowerOf256(k) == KEY_SPACE
  {
    var i: nat :| i == 3;
    assert PowerOf256(i) == 0x100_0000;
    PowerOf256Double(i, 0x1000000);
    PowerOf256Double(2 * i, 0x1000000000000);
    PowerOf256Double(4 * i, 0x1000000000000000000000000);
    PowerOf256Double(8 * i, 0x1000000000000000000000000000000000000000000000000);
    PowerOf256Double(16 * i, 0x1000000000000000000000000000000000000000000000000000000000000000000000000000000000000000000000000);
    PowerOf256Double(32 * i, 0x1000000000000000000000000000000000000000000000000000000000000000000000000000000000000000000000000000000000000000000000000000000000000000000000000000000000000000000000000000000000000000000000000);
    PowerOf256Double(64 * i, 0x1000000000000000000000000000000000000000000000000000000000000000000000000000000000000000000000000000000000000000000000000000000000000000000000000000000000000000000000000000000000000000000000000000000000000000000000000000000000000000000000000000000000000000000000000000000000000000000000000000000000000000000000000000000000000000000000000000000000000000000000000000000000000000000000000);
  }

  /** Public keys of the library's group fit the field, and its generator is no multiple of the modulus. */
  lemma DefaultGroupFits()
    ensures DEFAULT_PARAMS.n <= KEY_SPACE && DEFAULT_PARAMS.g % DEFAULT_PARAMS.n != 0
  {}

  /** A value that fits the field keeps its value when padded to the field. */
  lemma PadToNValue(value: nat)
    requires value < KEY_SPACE
    ensures FromBe(PadToN(value)) == value
  {
    var k: nat :| k == N_BYTES;
    ByteWidthPower(k);
    ToBeMinimalLength(value, k);
    ToBeMinimalValue(value);
    LeadingZeros(N_BYTES - |ToBeMinimal(value)|, ToBeMinimal(value));
    assert |ToBeMinimal(value)| == N_BYTES ==> PadToN(value) == ToBeMinimal(value);
  }

  /** The hashed text leaves nothing open: salts of one length and keys of the field's width can be read off it. */
  lemma ProofTextBinds(hash: Hash, params: SrpParams, identity: Bytes, salt: Bytes, clientKey: nat, serverKey: nat,
                       sessionKey: Bytes, identity': Bytes, salt': Bytes, clientKey': nat, serverKey': nat,
                       sessionKey': Bytes)
    requires |salt| == |salt'|
    requires clientKey < KEY_SPACE && serverKey < KEY_SPACE && clientKey' < KEY_SPACE && serverKey' < KEY_SPACE
    requires ProofText(hash, params, identity, salt, clientKey, serverKey, sessionKey)
             == ProofText(hash, params, identity', salt', clientKey', serverKey', sessionKey')
    ensures hash(identity) == hash(identity') && salt == salt'
    ensures clientKey == clientKey' && serverKey == serverKey' && sessionKey == sessionKey'
  {
    var group := Xor(hash(PadToN(params.n)), hash(ToBeMinimal(params.g)));
    FieldsAreEqual(group, hash(identity), salt, PadToN(clientKey), PadToN(serverKey), sessionKey,
                   hash(identity'), salt', PadToN(clientKey'), PadToN(serverKey'), sessionKey');
    PadToNValue(clientKey);
    PadToNValue(clientKey');
    PadToNValue(serverKey);
    PadToNValue(serverKey');
  }

  lemma FieldsAreEqual(group: Bytes, i: Bytes, s: Bytes, a: Bytes, b: Bytes, k: Bytes,
                       i': Bytes, s': Bytes, a': Bytes, b': Bytes, k': Bytes)
    requires |i| == |i'| && |s| == |s'| && |a| == |a'| && |b| == |b'|
    requires group + i + s + a + b + k == group + i' + s' + a' + b' + k'
    ensures i == i' && s == s' && a == a' && b == b' && k == k'
  {
    SplitEqual(group + i + s + a + b, k, group + i' + s' + a' + b', k');
    SplitEqual(group + i + s + a, b, group + i' + s' + a', b');
    SplitEqual(group + i + s, a, group + i' + s', a');
    SplitEqual(group + i, s, group + i', s');
    SplitEqual(group, i, group, i');
  }

  lemma SplitEqual(x: Bytes, y: Bytes, x': Bytes, y': Bytes)
    requires |x| == |x'| && x + y == x' + y'
    ensures x == x' && y == y'
  {
    assert (x + y)[..|x|] == x && (x' + y')[..|x|] == x';
    assert (x + y)[|x|..] == y && (x' + y')[|x|..] == y';
  }
}
