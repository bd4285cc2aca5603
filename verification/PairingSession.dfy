/** The outer pairing state machine, which owns a pair-setup and, at the end, the session keys. */
module PairingSessions {
  import opened Wrappers
  import opened ByteStrings
  import opened ModArith
  import opened Srp
  import opened PairSetups

  datatype SessionKeys = SessionKeys(writeKey: Bytes, readKey: Bytes)

  /** Key derivation from the shared secret; it may report failure. */
  type KeyDerivation = Bytes -> Option<SessionKeys>

  datatype TransientStage = NotStarted | WaitingM2 | WaitingM4 | Done

  datatype PairingError =
    | AlreadyStarted
    | NotStartedYet
    | BadStage
    | SetupFailed(setup: SetupError)
    | NoKeys

  datatype Session = Session(setup: Option<Setup>, stage: TransientStage, keys: Option<SessionKeys>)

  const NEW_SESSION := Session(None, NotStarted, None)

  // ----- The calls, as functions of the session -----

  function StepStart(params: SrpParams, s: Session, pin: Bytes, a: nat)
    : (Session, Result<Bytes, PairingError>)
  {
    if s.setup.Some? then (s, Err(AlreadyStarted))
    else
      var (setup, m1) := StepM1(params, NewSetup(pin), a);
      match m1
      case Err(e) => (s, Err(SetupFailed(e)))
      case Ok(message) => (s.(setup := Some(setup), stage := WaitingM2), Ok(message))
  }

  function StepContinue(srp: Challenger, kdf: KeyDerivation, s: Session, response: Bytes)
    : (Session, Result<Option<Bytes>, PairingError>)
  {
    if s.setup.None? then (s, Err(NotStartedYet))
    else if s.stage == WaitingM2 then
      var (received, m2) := StepM2(srp, s.setup.value, response);
      if m2.Err? then (s.(setup := Some(received)), Err(SetupFailed(m2.error)))
      else
        var (sent, m3) := StepM3(received);
        if m3.Err? then (s.(setup := Some(sent)), Err(SetupFailed(m3.error)))
        else (s.(setup := Some(sent), stage := WaitingM4), Ok(Some(m3.value)))
    else if s.stage == WaitingM4 then
      var (received, m4) := StepM4(s.setup.value, response);
      if m4.Err? then (s.(setup := Some(received)), Err(SetupFailed(m4.error)))
      else
        var (complete, secret) := StepComplete(received);
        if secret.Err? then (s.(setup := Some(complete)), Err(SetupFailed(secret.error)))
        else
          var keys := kdf(secret.value);
          if keys.None? then (s.(setup := Some(complete)), Err(NoKeys))
          else (Session(Some(complete), Done, keys), Ok(None))
    else (s, Err(BadStage))
  }

  function StepTake(s: Session): (Session, Option<SessionKeys>) {
    (s.(keys := None), s.keys)
  }

  // ----- Whole runs -----

  datatype Call = Start(pin: Bytes, a: nat) | Continue(response: Bytes) | Take

  /** The fixed environment of a run. */
  datatype World = World(params: SrpParams, srp: Challenger, kdf: KeyDerivation)

  function Step(w: World, s: Session, call: Call): Session {
    match call
    case Start(pin, a) => StepStart(w.params, s, pin, a).0
    case Continue(response) => StepContinue(w.srp, w.kdf, s, response).0
    case Take => StepTake(s).0
  }

  function Run(w: World, calls: seq<Call>): Session {
    if calls == [] then NEW_SESSION
    else Step(w, Run(w, calls[..|calls| - 1]), calls[|calls| - 1])
  }

  /** The stage and the inner state, in the only combinations that occur. */
  ghost predicate StagesAgree(s: Session) {
    match s.stage
    case NotStarted => s.setup.None?
    case WaitingM2 => s.setup.Some? && s.setup.value.state in {M1Sent, Failed}
    case WaitingM4 => s.setup.Some? && s.setup.value.state in {M3Sent, Complete, Failed}
    case Done => s.setup.Some? && s.setup.value.state == Complete
  }

  /** Call i is the first start of the run, and this is the client it made. */
  ghost predicate StartedAt(w: World, calls: seq<Call>, i: int, client: SrpClient) {
    0 <= i < |calls| && calls[i].Start?
    && NoStart(calls[..i])
    && client == NewClient(w.params, SetupIdentity(), calls[i].pin, calls[i].a)
  }

  /** Call i delivered an M2 that this client accepted with this proof. */
  ghost predicate AcceptedM2At(w: World, calls: seq<Call>, i: int, client: SrpClient, proof: SrpProof) {
    0 <= i < |calls| && calls[i].Continue? && ReadM2(calls[i].response).Ok?
    && w.srp(client, ReadM2(calls[i].response).value) == Ok(proof)
  }

  /** Call i delivered an M4 that carries exactly the proof the client expects. */
  ghost predicate AcceptedM4At(calls: seq<Call>, i: int, proof: SrpProof) {
    0 <= i < |calls| && calls[i].Continue? && ReadM4(calls[i].response) == Ok(proof.expectedServerProof)
  }

  ghost predicate NoStart(calls: seq<Call>) {
    forall h :: 0 <= h < |calls| ==> !calls[h].Start?
  }

  /** The evidence in the past calls for everything the session now holds. */
  ghost predicate Evidence(w: World, calls: seq<Call>, s: Session) {
    && (s.keys.Some? ==> s.stage == Done)
    && (s.setup.Some? ==>
      var setup := s.setup.value;
      && setup.client.Some?
      && (exists i :: StartedAt(w, calls, i, setup.client.value))
      && (setup.state in {M2Received, M3Sent, M4Received, Complete} ==>
        && setup.proof.Some?
        && (exists i, j :: (
          && StartedAt(w, calls, i, setup.client.value)
          && i < j
          && AcceptedM2At(w, calls, j, setup.client.value, setup.proof.value))))
      && (s.stage == Done ==>
        && setup.proof.Some?
        && (exists i, j, k :: (
          && StartedAt(w, calls, i, setup.client.value)
          && i < j < k
          && AcceptedM2At(w, calls, j, setup.client.value, setup.proof.value)
          && AcceptedM4At(calls, k, setup.proof.value))))
      && (s.keys.Some? ==> w.kdf(setup.proof.value.sharedSecret) == s.keys))
  }

  lemma NoStartSnoc(calls: seq<Call>)
    requires calls != []
    ensures NoStart(calls) <==> NoStart(calls[..|calls| - 1]) && !calls[|calls| - 1].Start?
  {}

  lemma StartsMakeSetups(w: World, s: Session, call: Call)
    ensures Step(w, s, call).setup.None? <==> s.setup.None? && !call.Start?
  {}

  /** The first start makes the session's setup; nothing else does, and nothing takes it away. */
  lemma {:induction false} StartedByTheFirst(w: World, calls: seq<Call>)
    ensures Run(w, calls).setup.None? <==> NoStart(calls)
  {
    if calls != [] {
      var before := calls[..|calls| - 1];
      StartedByTheFirst(w, before);
      StartsMakeSetups(w, Run(w, before), calls[|calls| - 1]);
      NoStartSnoc(calls);
    }
  }

  /** Over every sequence of calls the two machines stay in step and every holding is justified. */
  lemma {:induction false} RunInvariant(w: World, calls: seq<Call>)
    ensures StagesAgree(Run(w, calls)) && Evidence(w, calls, Run(w, calls))
  {
    if calls != [] {
      var before := calls[..|calls| - 1];
      RunInvariant(w, before);
      var s := Run(w, before);
      var call := calls[|calls| - 1];
      EvidencePersists(w, before, call, s);
      assert before + [call] == calls;
      match call
      case Start(pin, a) =>
        if s.setup.None? {
          StartedByTheFirst(w, before);
          assert StartedAt(w, calls, |calls| - 1, NewClient(w.params, SetupIdentity(), pin, a));
        }
      case Take =>
      case Continue(response) => ContinueKeepsEvidence(w, before, s, response);
    }
  }

  lemma EvidencePersists(w: World, calls: seq<Call>, call: Call, s: Session)
    requires Evidence(w, calls, s)
    ensures Evidence(w, calls + [call], s)
  {
    var more := calls + [call];
    forall i | 0 <= i < |calls|
      ensures more[i] == calls[i] && more[..i] == calls[..i]
    {}
    if s.setup.Some? {
      var client := s.setup.value.client.value;
      var i :| StartedAt(w, calls, i, client);
      assert StartedAt(w, more, i, client);
      if s.setup.value.state in {M2Received, M3Sent, M4Received, Complete} {
        var proof := s.setup.value.proof.value;
        var i, j :| StartedAt(w, calls, i, client) && i < j && AcceptedM2At(w, calls, j, client, proof);
        assert StartedAt(w, more, i, client) && AcceptedM2At(w, more, j, client, proof);
      }
      if s.stage == Done {
        var proof := s.setup.value.proof.value;
        var i, j, k :| StartedAt(w, calls, i, client) && i < j < k
          && AcceptedM2At(w, calls, j, client, proof) && AcceptedM4At(calls, k, proof);
        assert StartedAt(w, more, i, client) && AcceptedM2At(w, more, j, client, proof);
        assert AcceptedM4At(more, k, proof);
      }
    }
  }

  lemma ContinueKeepsEvidence(w: World, calls: seq<Call>, s: Session, response: Bytes)
    requires StagesAgree(s) && Evidence(w, calls, s)
    ensures
      var next := StepContinue(w.srp, w.kdf, s, response).0;
      StagesAgree(next) && Evidence(w, calls + [Continue(response)], next)
  {
    EvidencePersists(w, calls, Continue(response), s);
    if s.setup.Some? && s.stage == WaitingM2 {
      M2KeepsEvidence(w, calls, s, response);
    } else if s.setup.Some? && s.stage == WaitingM4 {
      M4KeepsEvidence(w, calls, s, response);
    }
  }

  lemma M2KeepsEvidence(w: World, calls: seq<Call>, s: Session, response: Bytes)
    requires s.stage == WaitingM2 && StagesAgree(s) && Evidence(w, calls, s)
    ensures
      var next := StepContinue(w.srp, w.kdf, s, response).0;
      StagesAgree(next) && Evidence(w, calls + [Continue(response)], next)
  {
    var more := calls + [Continue(response)];
    var (received, m2) := StepM2(w.srp, s.setup.value, response);
    var client := s.setup.value.client.value;
    var i :| StartedAt(w, calls, i, client);
    assert StartedAt(w, more, i, client);
    if m2.Ok? {
      assert AcceptedM2At(w, more, |calls|, client, received.proof.value);
    } else {
      assert received.state == Failed;
    }
  }

  /** An M4 completes a waiting setup exactly if it carries the expected proof, and fails it otherwise. */
  lemma M4Moves(srp: Challenger, kdf: KeyDerivation, s: Session, response: Bytes)
    requires s.stage == WaitingM4 && s.setup.Some? && s.setup.value.client.Some?
    ensures
      var next := StepContinue(srp, kdf, s, response).0;
      var setup := s.setup.value;
      if setup.state == M3Sent && setup.proof.Some? && ReadM4(response) == Ok(setup.proof.value.expectedServerProof)
      then
        && next.setup == Some(setup.(state := Complete))
        && var keys := kdf(setup.proof.value.sharedSecret);
           if keys.Some? then next.keys == keys && next.stage == Done
           else next.keys == s.keys && next.stage == WaitingM4
      else next == s.(setup := Some(setup.(state := Failed)))
  {}

  lemma M4KeepsEvidence(w: World, calls: seq<Call>, s: Session, response: Bytes)
    requires s.stage == WaitingM4 && StagesAgree(s) && Evidence(w, calls, s)
    ensures
      var next := StepContinue(w.srp, w.kdf, s, response).0;
      StagesAgree(next) && Evidence(w, calls + [Continue(response)], next)
  {
    var more := calls + [Continue(response)];
    EvidencePersists(w, calls, Continue(response), s);
    M4Moves(w.srp, w.kdf, s, response);
    M4Evidence(w, more, s, StepContinue(w.srp, w.kdf, s, response).0, response);
  }

  lemma M4Evidence(w: World, more: seq<Call>, s: Session, next: Session, response: Bytes)
    requires more != [] && more[|more| - 1] == Continue(response)
    requires s.stage == WaitingM4 && StagesAgree(s) && Evidence(w, more[..|more| - 1], s) && Evidence(w, more, s)
    requires next.setup.Some? && s.setup.value.(state := next.setup.value.state) == next.setup.value
    requires
      if next.setup.value.state == Complete
      then s.setup.value.state == M3Sent && ReadM4(response) == Ok(s.setup.value.proof.value.expectedServerProof)
           && ((next.stage == Done && next.keys == w.kdf(s.setup.value.proof.value.sharedSecret))
               || (next.stage == WaitingM4 && next.keys == s.keys))
      else next == s.(setup := Some(s.setup.value.(state := Failed)))
    ensures StagesAgree(next) && Evidence(w, more, next)
  {
    if next.setup.value.state == Complete {
      var before := more[..|more| - 1];
      var client, proof := s.setup.value.client.value, s.setup.value.proof.value;
      var i, j :| StartedAt(w, before, i, client) && i < j && AcceptedM2At(w, before, j, client, proof);
      assert more[..i] == before[..i];
      assert StartedAt(w, more, i, client) && AcceptedM2At(w, more, j, client, proof);
      assert AcceptedM4At(more, |more| - 1, proof);
    }
  }

  /** Keys exist only after an accepted M4 whose proof is the one computed from the accepted M2. */
  lemma KeysAreEarned(w: World, calls: seq<Call>)
    requires Run(w, calls).keys.Some?
    ensures exists i, j, k, client, proof ::
      StartedAt(w, calls, i, client) && i < j < k
      && AcceptedM2At(w, calls, j, client, proof) && AcceptedM4At(calls, k, proof)
      && w.kdf(proof.sharedSecret) == Run(w, calls).keys
  {
    RunInvariant(w, calls);
    var setup := Run(w, calls).setup.value;
    var client, proof := setup.client.value, setup.proof.value;
    var i, j, k :| StartedAt(w, calls, i, client) && i < j < k
      && AcceptedM2At(w, calls, j, client, proof) && AcceptedM4At(calls, k, proof);
  }

  ghost predicate HasFailed(s: Session) {
    s.setup.Some? && s.setup.value.state == Failed
  }

  lemma FailedStays(w: World, s: Session, call: Call)
    requires HasFailed(s) && StagesAgree(s) && s.keys.None?
    ensures HasFailed(Step(w, s, call)) && Step(w, s, call).keys.None?
  {}

  lemma FailedHasNoKeys(w: World, calls: seq<Call>)
    requires HasFailed(Run(w, calls))
    ensures StagesAgree(Run(w, calls)) && Run(w, calls).keys.None?
  {
    RunInvariant(w, calls);
  }

  /** A failed session stays failed, and holds no keys, whatever is called afterwards. */
  lemma {:induction false} FailureIsFinal(w: World, calls: seq<Call>, later: seq<Call>)
    requires HasFailed(Run(w, calls))
    ensures HasFailed(Run(w, calls + later)) && Run(w, calls + later).keys.None?
  {
    if later == [] {
      assert calls + later == calls;
    } else {
      var n := |later| - 1;
      var all := calls + later;
      assert all[..|all| - 1] == calls + later[..n];
      FailureIsFinal(w, calls, later[..n]);
      FailedHasNoKeys(w, calls + later[..n]);
      FailedStays(w, Run(w, calls + later[..n]), later[n]);
    }
    FailedHasNoKeys(w, calls + later);
  }

  ghost predicate Spent(s: Session) {
    s.stage == Done && s.setup.Some? && s.keys.None?
  }

  lemma SpentStays(w: World, s: Session, call: Call)
    requires Spent(s)
    ensures Spent(Step(w, s, call))
  {}

  lemma TakeSpends(w: World, calls: seq<Call>)
    requires Run(w, calls).keys.Some?
    ensures Spent(Step(w, Run(w, calls), Take))
  {
    RunInvariant(w, calls);
  }

  /** Keys are handed out once: whatever is called after they were taken makes no others. */
  lemma {:induction false} TakenOnce(w: World, calls: seq<Call>, later: seq<Call>)
    requires Run(w, calls).keys.Some?
    ensures Spent(Run(w, calls + [Take] + later))
  {
    var all := calls + [Take] + later;
    if later == [] {
      TakeSpends(w, calls);
      assert all[..|all| - 1] == calls;
    } else {
      var n := |later| - 1;
      assert all[..|all| - 1] == calls + [Take] + later[..n];
      TakenOnce(w, calls, later[..n]);
      SpentStays(w, Run(w, all[..|all| - 1]), later[n]);
    }
  }

  // ----- An honest accessory -----

  function M2Items(salt: Bytes, publicKey: Bytes): Tlv.Items {
    map[6 := [2], 2 := salt, 3 := publicKey]
  }

  function M2Message(salt: Bytes, publicKey: Bytes): Bytes {
    Tlv.EncodeItems(M2Items(salt, publicKey))
  }

  /** The other end: what it sends, and the two proofs it computes for a client's public key. */
  datatype Accessory = Accessory(
    salt: Bytes, publicKey: Bytes, expectedM1: nat -> Bytes, proof: nat -> Bytes)

  predicate Holds(items: Tlv.Items, typ: byte, value: Bytes) {
    typ in items && items[typ] == value
  }

  /** A request for transient pairing: state 1, method 0, flag bit 4, and nothing else. */
  predicate TransientItems(items: Tlv.Items) {
    items.Keys == {0, 6, 19} && Holds(items, 6, [1]) && Holds(items, 0, [0]) && Holds(items, 19, [16, 0, 0, 0])
  }

  /** An accessory sends its M2 only to such a request. */
  function TakesM1(m1: Bytes): bool {
    match Tlv.ParseItems(m1)
    case Err(_) => false
    case Ok(items) => TransientItems(items)
  }

  /** The accessory's answer to M3: its own proof if the client's is right, else an error. */
  function M4Items(acc: Accessory, m3: Tlv.Items): Option<Tlv.Items> {
    if !Holds(m3, 6, [3]) || m3.Keys != {3, 4, 6} || |m3[3]| != 384
    then None
    else
      var clientKey := FromBe(m3[3]);
      if m3[4] == acc.expectedM1(clientKey) then
        Some(map[6 := [4], 4 := acc.proof(clientKey)])
      else
        Some(map[6 := [4], 7 := [2]])
  }

  function AccessoryM4(acc: Accessory, m3: Bytes): Option<Bytes> {
    match Tlv.ParseItems(m3)
    case Err(_) => None
    case Ok(items) =>
      match M4Items(acc, items)
      case None => None
      case Some(m4) => Some(Tlv.EncodeItems(m4))
  }

  /** An SRP server; its public key may have any of its leading zero bytes stripped. */
  function SrpAccessory(hash: Hash, server: SrpServer, publicKey: Bytes): Accessory {
    Accessory(server.salt, publicKey,
              clientKey => ServerExpectedM1(hash, server, clientKey),
              clientKey => ServerProof(hash, server, clientKey))
  }

  lemma M2Means(salt: Bytes, publicKey: Bytes)
    requires |salt| == SALT_LENGTH && |publicKey| <= N_BYTES
    ensures M2Challenge(M2Items(salt, publicKey))
            == Ok(SrpChallenge(salt, Zeros(N_BYTES - |publicKey|) + publicKey))
  {
    var items := M2Items(salt, publicKey);
    assert Tlv.FirstByte(items, Tlv.STATE) == Some(2);
  }

  lemma M2IsRead(salt: Bytes, publicKey: Bytes)
    requires |salt| == SALT_LENGTH && |publicKey| <= N_BYTES
    ensures ReadM2(M2Message(salt, publicKey))
            == Ok(SrpChallenge(salt, Zeros(N_BYTES - |publicKey|) + publicKey))
  {
    ReadsEncoded(M2Items(salt, publicKey));
    M2Means(salt, publicKey);
  }

  /** A padded public key always travels as two fragments, the first of them full. */
  lemma PublicKeySpansTwoFragments(clientKey: nat)
    ensures
      var key, fragments := PadToN(clientKey), Tlv.Split(Tlv.PUBLIC_KEY, PadToN(clientKey));
      |fragments| == 2 && Tlv.Wire(fragments) == [3, 255] + key[..255] + [3, 129] + key[255..]
  {
    Tlv.SplitSize(Tlv.PUBLIC_KEY, PadToN(clientKey));
    Tlv.LongItem(Tlv.PUBLIC_KEY, PadToN(clientKey));
  }

  lemma M3Answered(acc: Accessory, client: SrpClient, proof: SrpProof)
    requires FromBe(PadToN(client.publicKey)) == client.publicKey
    ensures
      var m4 := M4Items(acc, M3Items(client, proof));
      m4 == Some(if proof.clientProof == acc.expectedM1(client.publicKey)
                 then map[6 := [4], 4 := acc.proof(client.publicKey)] else map[6 := [4], 7 := [2]])
  {}

  lemma M4Means(proof: Bytes)
    ensures M4Proof(map[6 := [4], 4 := proof]) == Ok(proof)
    ensures M4Proof(map[6 := [4], 7 := [2]]) == Err(ServerError)
  {}

  /** What the accessory makes of the M3 of a client that has accepted its M2. */
  lemma AccessoryReadsM3(acc: Accessory, client: SrpClient, proof: SrpProof)
    requires FromBe(PadToN(client.publicKey)) == client.publicKey
    ensures AccessoryM4(acc, Tlv.EncodeItems(M3Items(client, proof))).Some?
    ensures
      var m4 := AccessoryM4(acc, Tlv.EncodeItems(M3Items(client, proof))).value;
      ReadM4(m4) == if proof.clientProof == acc.expectedM1(client.publicKey)
                    then Ok(acc.proof(client.publicKey)) else Err(ServerError)
  {
    var m3 := M3Items(client, proof);
    Tlv.RoundTrip(m3);
    M3Answered(acc, client, proof);
    M4Means(acc.proof(client.publicKey));
    ReadsEncoded(M4Items(acc, m3).value);
  }

  /** The session of a client that has sent its M3. */
  function AwaitingM4(pin: Bytes, client: SrpClient, proof: SrpProof): Session {
    Session(Some(Setup(M3Sent, pin, Some(client), Some(proof))), WaitingM4, None)
  }

  function Client(w: World, pin: Bytes, a: nat): SrpClient {
    NewClient(w.params, SetupIdentity(), pin, a)
  }

  /** A whole run against an accessory, up to the first refusal if there is one. */
  function PairWith(w: World, pin: Bytes, a: nat, acc: Accessory): Session {
    var (s1, m1) := StepStart(w.params, NEW_SESSION, pin, a);
    if m1.Err? || !TakesM1(m1.value) then s1 else AnswerM2(w, acc, s1)
  }

  /** The run from the accessory's M2 on. */
  function AnswerM2(w: World, acc: Accessory, s1: Session): Session {
    var (s2, m3) := StepContinue(w.srp, w.kdf, s1, M2Message(acc.salt, acc.publicKey));
    if m3.Err? || m3.value.None? then s2
    else
      var m4 := AccessoryM4(acc, m3.value.value);
      if m4.None? then s2 else StepContinue(w.srp, w.kdf, s2, m4.value).0
  }

  /** The run ended well, with the keys of this secret unless their derivation failed. */
  ghost predicate Paired(w: World, s: Session, secret: Bytes) {
    && s.setup.Some? && s.setup.value.state == Complete
    && s.keys == w.kdf(secret)
    && (s.keys.Some? ==> s.stage == Done)
  }

  lemma M1ItemsAreRight()
    ensures TransientItems(M1Items())
  {}

  lemma M1Taken()
    ensures TakesM1(Tlv.EncodeItems(M1Items()))
  {
    var items := M1Items();
    M1ItemsAreRight();
    Tlv.RoundTrip(items);
  }

  lemma StartSends(params: SrpParams, pin: Bytes, a: nat)
    ensures StepStart(params, NEW_SESSION, pin, a).1 == Ok(Tlv.EncodeItems(M1Items()))
  {}

  /** The accessory takes the M1 of every new session. */
  lemma M1IsTaken(w: World, pin: Bytes, a: nat, acc: Accessory)
    ensures PairWith(w, pin, a, acc) == AnswerM2(w, acc, StepStart(w.params, NEW_SESSION, pin, a).0)
  {
    M1Taken();
    StartSends(w.params, pin, a);
  }

  lemma M2Accepted(w: World, pin: Bytes, a: nat, m2: Bytes, challenge: SrpChallenge, proof: SrpProof)
    requires ReadM2(m2) == Ok(challenge)
    requires w.srp(Client(w, pin, a), challenge) == Ok(proof)
    ensures
      var s1 := StepStart(w.params, NEW_SESSION, pin, a).0;
      StepContinue(w.srp, w.kdf, s1, m2)
      == (AwaitingM4(pin, Client(w, pin, a), proof),
          Ok(Some(Tlv.EncodeItems(M3Items(Client(w, pin, a), proof)))))
  {}

  lemma M4Outcome(w: World, pin: Bytes, client: SrpClient, proof: SrpProof, m4: Bytes)
    ensures
      var s := StepContinue(w.srp, w.kdf, AwaitingM4(pin, client, proof), m4).0;
      if ReadM4(m4) == Ok(proof.expectedServerProof) then Paired(w, s, proof.sharedSecret)
      else HasFailed(s) && s.keys.None?
  {}

  /** How a run against any accessory ends: by whether the two sides' proofs agree. */
  lemma PairingOutcome(w: World, pin: Bytes, a: nat, acc: Accessory, proof: SrpProof)
    requires |acc.salt| == SALT_LENGTH && |acc.publicKey| <= N_BYTES
    requires FromBe(PadToN(Client(w, pin, a).publicKey)) == Client(w, pin, a).publicKey
    requires w.srp(Client(w, pin, a),
                   SrpChallenge(acc.salt, Zeros(N_BYTES - |acc.publicKey|) + acc.publicKey)) == Ok(proof)
    ensures
      var s := PairWith(w, pin, a, acc);
      var clientKey := Client(w, pin, a).publicKey;
      if proof.clientProof == acc.expectedM1(clientKey) && proof.expectedServerProof == acc.proof(clientKey)
      then Paired(w, s, proof.sharedSecret)
      else HasFailed(s) && s.keys.None?
  {
    var client := Client(w, pin, a);
    var m2 := M2Message(acc.salt, acc.publicKey);
    M1IsTaken(w, pin, a, acc);
    M2IsRead(acc.salt, acc.publicKey);
    M2Accepted(w, pin, a, m2, ReadM2(m2).value, proof);
    AccessoryReadsM3(acc, client, proof);
    M4Outcome(w, pin, client, proof,
              AccessoryM4(acc, Tlv.EncodeItems(M3Items(client, proof))).value);
  }

  /** What an honest run needs of its numbers, all of it fixed before M2 is sent. */
  ghost predicate HonestSetting(hash: Hash, server: SrpServer, publicKey: Bytes, a: nat) {
    var params := server.params;
    && SoundGroup(params) && params.n <= KEY_SPACE
    && |server.salt| == SALT_LENGTH
    && |publicKey| <= N_BYTES && FromBe(publicKey) == ServerPublicKey(hash, server)
    && ServerPublicKey(hash, server) != 0
    && Scrambler(hash, ModPow(params.g, a, params.n), ServerPublicKey(hash, server)) != 0
  }

  /** With the right PIN every run ends complete, holding the keys of the accessory's own secret. */
  lemma HonestPairing(hash: Hash, kdf: KeyDerivation, params: SrpParams, pin: Bytes, a: nat, salt: Bytes,
                      b: nat, publicKey: Bytes)
    requires HonestSetting(hash, Enrol(hash, params, Ascii("Pair-Setup"), pin, salt, b), publicKey, a)
    ensures
      var w := World(params, SrpWith(hash), kdf);
      var server := Enrol(hash, params, Ascii("Pair-Setup"), pin, salt, b);
      Paired(w, PairWith(w, pin, a, SrpAccessory(hash, server, publicKey)),
             ServerSessionKey(hash, server, Client(w, pin, a).publicKey))
  {
    var w := World(params, SrpWith(hash), kdf);
    var server := Enrol(hash, params, Ascii("Pair-Setup"), pin, salt, b);
    var wireKey := Zeros(N_BYTES - |publicKey|) + publicKey;
    LeadingZeros(N_BYTES - |publicKey|, publicKey);
    MutualProofs(hash, params, SetupIdentity(), pin, salt, a, b, wireKey);
    PadToNValue(Client(w, pin, a).publicKey);
    PairingOutcome(w, pin, a, SrpAccessory(hash, server, publicKey),
                   MutualProof(hash, server, Client(w, pin, a).publicKey));
  }

  /** For the group the library uses nothing is left to ask of it but that its modulus is prime. */
  lemma HonestPairingByDefault(hash: Hash, kdf: KeyDerivation, pin: Bytes, a: nat, salt: Bytes, b: nat,
                               publicKey: Bytes)
    requires Prime(RFC5054_N_3072)
    requires |salt| == SALT_LENGTH && |publicKey| <= N_BYTES
    requires
      var server := Enrol(hash, DEFAULT_PARAMS, Ascii("Pair-Setup"), pin, salt, b);
      && FromBe(publicKey) == ServerPublicKey(hash, server) != 0
      && Scrambler(hash, ModPow(5, a, RFC5054_N_3072), ServerPublicKey(hash, server)) != 0
    ensures
      var w := World(DEFAULT_PARAMS, SrpWith(hash), kdf);
      var server := Enrol(hash, DEFAULT_PARAMS, Ascii("Pair-Setup"), pin, salt, b);
      Paired(w, PairWith(w, pin, a, SrpAccessory(hash, server, publicKey)),
             ServerSessionKey(hash, server, Client(w, pin, a).publicKey))
  {
    DefaultGroupFits();
    HonestPairing(hash, kdf, DEFAULT_PARAMS, pin, a, salt, b, publicKey);
  }

  /** The session object. */
  class PairingSession {
    const params: SrpParams
    const hash: Hash
    const kdf: KeyDerivation
    var transientSetup: PairSetup?
    var transientState: TransientStage
    var sessionKeys: Option<SessionKeys>

    constructor (params: SrpParams, hash: Hash, kdf: KeyDerivation)
      ensures this.params == params && this.hash == hash && this.kdf == kdf
      ensures Valid() && View() == NEW_SESSION
    {
      this.params, this.hash, this.kdf := params, hash, kdf;
      transientSetup := null;
      transientState := NotStarted;
      sessionKeys := None;
    }

    ghost predicate Valid()
      reads this, transientSetup
    {
      transientSetup != null ==> transientSetup.params == params && transientSetup.hash == hash
    }

    ghost function View(): Session
      reads this, transientSetup
    {
      Session(if transientSetup == null then None else Some(transientSetup.View()),
              transientState, sessionKeys)
    }

    method StartTransientPairingWithPin(pin: Bytes, a: nat) returns (r: Result<Bytes, PairingError>)
      requires Valid()
      modifies this
      ensures Valid() && (transientSetup == old(transientSetup) || fresh(transientSetup))
      ensures (View(), r) == StepStart(params, old(View()), pin, a)
    {
      if transientSetup != null {
        return Err(AlreadyStarted);
      }
      var setup := new PairSetup(params, hash, pin);
      var m1 := setup.GenerateM1(a);
      match m1
      case Err(e) => r := Err(SetupFailed(e));
      case Ok(message) =>
        transientSetup := setup;
        transientState := WaitingM2;
        r := Ok(message);
    }

    method ContinueTransientPairing(response: Bytes) returns (r: Result<Option<Bytes>, PairingError>)
      requires Valid()
      modifies this, transientSetup
      ensures Valid() && transientSetup == old(transientSetup)
      ensures (View(), r) == StepContinue(SrpWith(hash), kdf, old(View()), response)
    {
      if transientSetup == null {
        return Err(NotStartedYet);
      }
      if transientState == WaitingM2 {
        var m2 := transientSetup.ProcessM2(response);
        if m2.Err? {
          return Err(SetupFailed(m2.error));
        }
        var m3 := transientSetup.GenerateM3();
        if m3.Err? {
          return Err(SetupFailed(m3.error));
        }
        transientState := WaitingM4;
        return Ok(Some(m3.value));
      } else if transientState == WaitingM4 {
        var m4 := transientSetup.ProcessM4(response);
        if m4.Err? {
          return Err(SetupFailed(m4.error));
        }
        var secret := transientSetup.CompleteTransient();
        if secret.Err? {
          return Err(SetupFailed(secret.error));
        }
        var keys := kdf(secret.value);
        if keys.None? {
          return Err(NoKeys);
        }
        sessionKeys := keys;
        transientState := Done;
        return Ok(None);
      }
      r := Err(BadStage);
    }

    method TakeSessionKeys() returns (r: Option<SessionKeys>)
      requires Valid()
      modifies this
      ensures Valid() && transientSetup == old(transientSetup)
      ensures (View(), r) == StepTake(old(View()))
    {
      r := sessionKeys;
      sessionKeys := None;
    }
  }
}
