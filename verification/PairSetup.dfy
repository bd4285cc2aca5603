/** Transient pair-setup: the inner state machine that exchanges M1 to M4 with an accessory. */
module PairSetups {
  import opened Wrappers
  import opened ByteStrings
  import opened Srp
  import Tlv

  const SALT_LENGTH: nat := 16

  /** How an SRP client answers a challenge. */
  type Challenger = (SrpClient, SrpChallenge) -> Result<SrpProof, SrpError>

  function SrpWith(hash: Hash): Challenger {
    (client, challenge) => ProcessChallenge(hash, client, challenge)
  }

  datatype SetupState = Initial | M1Sent | M2Received | M3Sent | M4Received | Complete | Failed

  datatype SetupError =
    | InvalidState
    | Unparsable(parse: Tlv.ParseError)
    | ServerError
    | WrongState
    | MissingSalt
    | BadSaltLength
    | MissingPublicKey
    | PublicKeyTooLong
    | NoClient
    | BadChallenge(srp: SrpError)
    | NoProof
    | MissingProof
    | ProofMismatch

  datatype Setup = Setup(
    state: SetupState, pin: Bytes, client: Option<SrpClient>, proof: Option<SrpProof>)

  function SetupIdentity(): Bytes { Ascii("Pair-Setup") }

  // ----- Message contents -----

  function M1Items(): Tlv.Items {
    map[Tlv.STATE := [1], Tlv.METHOD := [0], Tlv.FLAGS := [0x10, 0, 0, 0]]
  }

  function M3Items(client: SrpClient, proof: SrpProof): Tlv.Items {
    map[Tlv.STATE := [3], Tlv.PUBLIC_KEY := PadToN(client.publicKey), Tlv.PROOF := proof.clientProof]
  }

  /** The challenge carried by an M2, or the first thing wrong with it. */
  function M2Challenge(items: Tlv.Items): Result<SrpChallenge, SetupError> {
    if Tlv.FirstByte(items, Tlv.ERROR).Some? then Err(ServerError)
    else if Tlv.FirstByte(items, Tlv.STATE) != Some(2) then Err(WrongState)
    else if Tlv.SALT !in items then Err(MissingSalt)
    else if |items[Tlv.SALT]| != SALT_LENGTH then Err(BadSaltLength)
    else if Tlv.PUBLIC_KEY !in items then Err(MissingPublicKey)
    else if |items[Tlv.PUBLIC_KEY]| > N_BYTES then Err(PublicKeyTooLong)
    else
      var raw := items[Tlv.PUBLIC_KEY];
      Ok(SrpChallenge(items[Tlv.SALT], Zeros(N_BYTES - |raw|) + raw))
  }

  function ReadM2(response: Bytes): Result<SrpChallenge, SetupError> {
    match Tlv.ParseItems(response)
    case Err(e) => Err(Unparsable(e))
    case Ok(items) => M2Challenge(items)
  }

  /** The server proof carried by an M4, or the first thing wrong with it. */
  function M4Proof(items: Tlv.Items): Result<Bytes, SetupError> {
    if Tlv.FirstByte(items, Tlv.ERROR).Some? then Err(ServerError)
    else if Tlv.FirstByte(items, Tlv.STATE) != Some(4) then Err(WrongState)
    else if Tlv.PROOF !in items then Err(MissingProof)
    else Ok(items[Tlv.PROOF])
  }

  function ReadM4(response: Bytes): Result<Bytes, SetupError> {
    match Tlv.ParseItems(response)
    case Err(e) => Err(Unparsable(e))
    case Ok(items) => M4Proof(items)
  }

  /** Reading what was printed is reading the items themselves. */
  lemma ReadsEncoded(items: Tlv.Items)
    ensures ReadM2(Tlv.EncodeItems(items)) == M2Challenge(items)
    ensures ReadM4(Tlv.EncodeItems(items)) == M4Proof(items)
  {
    Tlv.RoundTrip(items);
  }

  /** The first message of every pairing, byte for byte. */
  lemma M1OnTheWire()
    ensures Tlv.EncodeItems(M1Items()) == [0, 1, 0, 6, 1, 1, 19, 4, 16, 0, 0, 0]
  {
    var items := M1Items();
    assert items.Keys == {0, 6, 19};
    Tlv.ShortItemFirst(items, {0, 6, 19}, 0);
    assert {0, 6, 19} - {0} == {6, 19};
    Tlv.ShortItemFirst(items, {6, 19}, 6);
    assert {6, 19} - {6} == {19};
    Tlv.ShortItemFirst(items, {19}, 19);
    assert {19} - {19} == {};
  }

  /** An M3 byte for byte: the padded key in two fragments, the proof and the state. */
  lemma M3OnTheWire(client: SrpClient, proof: SrpProof)
    requires |proof.clientProof| == 64
    ensures
      var key := PadToN(client.publicKey);
      Tlv.EncodeItems(M3Items(client, proof))
      == [3, 255] + key[..255] + [3, 129] + key[255..] + [4, 64] + proof.clientProof + [6, 1, 3]
  {
    var items, key := M3Items(client, proof), PadToN(client.publicKey);
    assert items.Keys == {3, 4, 6} && Tlv.Least({3, 4, 6}) == 3;
    assert {3, 4, 6} - {3} == {4, 6};
    Tlv.WireConcat(Tlv.Split(3, key), Tlv.SplitAll(items, {4, 6}));
    Tlv.LongItem(3, key);
    Tlv.ShortItemFirst(items, {4, 6}, 4);
    assert {4, 6} - {4} == {6};
    Tlv.ShortItemFirst(items, {6}, 6);
    assert {6} - {6} == {};
    assert Tlv.Wire(Tlv.SplitAll(items, {4, 6})) == [4, 64] + proof.clientProof + [6, 1, 3];
  }

  /** The items of a message say that there was no error: no error item, or an empty one. */
  ghost predicate NoError(items: Tlv.Items) {
    7 !in items || items[7] == []
  }

  /**
   * Exactly these items make an M2: no error, a state that begins with 2, a salt of sixteen bytes and a key
   * of at most 384; and then salt and key are the ones sent.
   */
  lemma M2AcceptedIff(items: Tlv.Items)
    ensures M2Challenge(items).Ok? <==>
            NoError(items) && 6 in items && |items[6]| > 0 && items[6][0] == 2
            && 2 in items && |items[2]| == 16 && 3 in items && |items[3]| <= 384
    ensures M2Challenge(items).Ok? ==>
            M2Challenge(items).value.salt == items[2]
            && FromBe(M2Challenge(items).value.serverPublicKey) == FromBe(items[3])
  {
    if M2Challenge(items).Ok? {
      LeadingZeros(N_BYTES - |items[3]|, items[3]);
    }
  }

  /** Exactly these items make an M4: no error, a state that begins with 4, and the proof sent. */
  lemma M4AcceptedIff(items: Tlv.Items, proof: Bytes)
    ensures M4Proof(items) == Ok(proof) <==>
            NoError(items) && 6 in items && |items[6]| > 0 && items[6][0] == 4
            && 4 in items && items[4] == proof
  {}

  // ----- The steps, as functions of the state -----

  function Fail<T>(s: Setup, e: SetupError): (Setup, Result<T, SetupError>) {
    (s.(state := Failed), Err(e))
  }

  function NewSetup(pin: Bytes): Setup {
    Setup(Initial, pin, None, None)
  }

  /** `a` is the random private key drawn by the new SRP client. */
  function StepM1(params: SrpParams, s: Setup, a: nat): (Setup, Result<Bytes, SetupError>) {
    if s.state != Initial then Fail(s, InvalidState)
    else (s.(state := M1Sent, client := Some(NewClient(params, SetupIdentity(), s.pin, a))),
          Ok(Tlv.EncodeItems(M1Items())))
  }

  function StepM2(srp: Challenger, s: Setup, response: Bytes): (Setup, Result<(), SetupError>) {
    if s.state != M1Sent then Fail(s, InvalidState)
    else
      match ReadM2(response)
      case Err(e) => Fail(s, e)
      case Ok(challenge) =>
        if s.client.None? then Fail(s, NoClient)
        else
          match srp(s.client.value, challenge)
          case Err(e) => Fail(s, BadChallenge(e))
          case Ok(proof) => (s.(state := M2Received, proof := Some(proof)), Ok(()))
  }

  function StepM3(s: Setup): (Setup, Result<Bytes, SetupError>) {
    if s.state != M2Received then Fail(s, InvalidState)
    else if s.client.None? then Fail(s, NoClient)
    else if s.proof.None? then Fail(s, NoProof)
    else (s.(state := M3Sent), Ok(Tlv.EncodeItems(M3Items(s.client.value, s.proof.value))))
  }

  function StepM4(s: Setup, response: Bytes): (Setup, Result<(), SetupError>) {
    if s.state != M3Sent then Fail(s, InvalidState)
    else
      match ReadM4(response)
      case Err(e) => Fail(s, e)
      case Ok(serverProof) =>
        if s.client.None? then Fail(s, NoClient)
        else if s.proof.None? then Fail(s, NoProof)
        else if serverProof != s.proof.value.expectedServerProof then Fail(s, ProofMismatch)
        else (s.(state := M4Received), Ok(()))
  }

  function StepComplete(s: Setup): (Setup, Result<Bytes, SetupError>) {
    if s.state != M4Received then Fail(s, InvalidState)
    else if s.proof.None? then Fail(s, NoProof)
    else (s.(state := Complete), Ok(s.proof.value.sharedSecret))
  }

  /** Every operation applied to a failed setup reports an error and leaves it failed. */
  lemma FailedIsAbsorbing(srp: Challenger, params: SrpParams, s: Setup, a: nat, response: Bytes)
    requires s.state == Failed
    ensures StepM1(params, s, a) == (s, Err(InvalidState))
    ensures StepM2(srp, s, response) == (s, Err(InvalidState))
    ensures StepM3(s) == (s, Err(InvalidState))
    ensures StepM4(s, response) == (s, Err(InvalidState))
    ensures StepComplete(s) == (s, Err(InvalidState))
  {
    assert s.(state := Failed) == s;
  }

  /** The pairing object, whose methods update its state in place. */
  class PairSetup {
    const params: SrpParams
    const hash: Hash
    const pin: Bytes
    var state: SetupState
    var srpClient: Option<SrpClient>
    var srpProof: Option<SrpProof>

    constructor (params: SrpParams, hash: Hash, pin: Bytes)
      ensures this.params == params && this.hash == hash && View() == NewSetup(pin)
    {
      this.params := params;
      this.hash := hash;
      this.pin := pin;
      state := Initial;
      srpClient := None;
      srpProof := None;
    }

    ghost function View(): Setup
      reads this
    {
      Setup(state, pin, srpClient, srpProof)
    }

    method GenerateM1(a: nat) returns (r: Result<Bytes, SetupError>)
      modifies this
      ensures (View(), r) == StepM1(params, old(View()), a)
    {
      if state != Initial {
        state := Failed;
        return Err(InvalidState);
      }
      srpClient := Some(NewClient(params, SetupIdentity(), pin, a));
      var tlv := new Tlv.Tlv8();
      tlv.Set(Tlv.STATE, [1]);
      tlv.Set(Tlv.METHOD, [0]);
      tlv.Set(Tlv.FLAGS, [0x10, 0, 0, 0]);
      assert tlv.items == M1Items();
      state := M1Sent;
      var message := tlv.Encode();
      r := Ok(message);
    }

    /** The challenge in an M2: salt checked for length, public key padded on the left. */
    static method ReadChallenge(response: Bytes) returns (r: Result<SrpChallenge, SetupError>)
      ensures r == ReadM2(response)
    {
      var parsed := Tlv.Tlv8.Parse(response);
      if parsed.Err? {
        return Err(Unparsable(parsed.error));
      }
      var tlv := parsed.value;
      if tlv.Error().Some? {
        return Err(ServerError);
      }
      if tlv.State() != Some(2) {
        return Err(WrongState);
      }
      var salt := tlv.Get(Tlv.SALT);
      if salt.None? {
        return Err(MissingSalt);
      }
      if |salt.value| != SALT_LENGTH {
        return Err(BadSaltLength);
      }
      var raw := tlv.Get(Tlv.PUBLIC_KEY);
      if raw.None? {
        return Err(MissingPublicKey);
      }
      var serverKey := raw.value;
      if |raw.value| < N_BYTES {
        serverKey := Zeros(N_BYTES - |raw.value|) + raw.value;
      } else if |raw.value| > N_BYTES {
        return Err(PublicKeyTooLong);
      }
      assert serverKey == Zeros(N_BYTES - |raw.value|) + raw.value;
      r := Ok(SrpChallenge(salt.value, serverKey));
    }

    method ProcessM2(response: Bytes) returns (r: Result<(), SetupError>)
      modifies this
      ensures (View(), r) == StepM2(SrpWith(hash), old(View()), response)
    {
      if state != M1Sent {
        state := Failed;
        return Err(InvalidState);
      }
      var challenge := ReadChallenge(response);
      if challenge.Err? {
        state := Failed;
        return Err(challenge.error);
      }
      if srpClient.None? {
        state := Failed;
        return Err(NoClient);
      }
      var proof := ProcessChallenge(hash, srpClient.value, challenge.value);
      if proof.Err? {
        state := Failed;
        return Err(BadChallenge(proof.error));
      }
      srpProof := Some(proof.value);
      state := M2Received;
      r := Ok(());
    }

    method GenerateM3() returns (r: Result<Bytes, SetupError>)
      modifies this
      ensures (View(), r) == StepM3(old(View()))
    {
      if state != M2Received {
        state := Failed;
        return Err(InvalidState);
      }
      if srpClient.None? {
        state := Failed;
        return Err(NoClient);
      }
      if srpProof.None? {
        state := Failed;
        return Err(NoProof);
      }
      var tlv := new Tlv.Tlv8();
      tlv.Set(Tlv.STATE, [3]);
      tlv.Set(Tlv.PUBLIC_KEY, PadToN(srpClient.value.publicKey));
      tlv.Set(Tlv.PROOF, srpProof.value.clientProof);
      assert tlv.items == M3Items(srpClient.value, srpProof.value);
      state := M3Sent;
      var message := tlv.Encode();
      r := Ok(message);
    }

    method ProcessM4(response: Bytes) returns (r: Result<(), SetupError>)
      modifies this
      ensures (View(), r) == StepM4(old(View()), response)
    {
      if state != M3Sent {
        state := Failed;
        return Err(InvalidState);
      }
      var parsed := Tlv.Tlv8.Parse(response);
      if parsed.Err? {
        state := Failed;
        return Err(Unparsable(parsed.error));
      }
      var tlv := parsed.value;
      if tlv.Error().Some? {
        state := Failed;
        return Err(ServerError);
      }
      if tlv.State() != Some(4) {
        state := Failed;
        return Err(WrongState);
      }
      var serverProof := tlv.Get(Tlv.PROOF);
      if serverProof.None? {
        state := Failed;
        return Err(MissingProof);
      }
      if srpClient.None? {
        state := Failed;
        return Err(NoClient);
      }
      if srpProof.None? {
        state := Failed;
        return Err(NoProof);
      }
      if serverProof.value != srpProof.value.expectedServerProof {
        state := Failed;
        return Err(ProofMismatch);
      }
      state := M4Received;
      r := Ok(());
    }

    method CompleteTransient() returns (r: Result<Bytes, SetupError>)
      modifies this
      ensures (View(), r) == StepComplete(old(View()))
    {
      if state != M4Received {
        state := Failed;
        return Err(InvalidState);
      }
      if srpProof.None? {
        state := Failed;
        return Err(NoProof);
      }
      state := Complete;
      r := Ok(srpProof.value.sharedSecret);
    }
  }
}
