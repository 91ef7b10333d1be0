/** The XX choreography: what the client does, what a matching responder does, and their agreement. */
module Handshake {
  import opened Wrappers
  import opened Noise
  import Utf8

  const NOISE_PATTERN := "Noise_XX_25519_AESGCM_SHA256\0\0\0\0"

  datatype ServerHello = ServerHello(ephemeral: Data, staticCt: Data, payloadCt: Data)

  /** The client's second message and the state it derives its traffic keys from. */
  datatype Finish = Finish(staticCt: Data, payloadCt: Data, state: Sym)

  /** Long-term and one-time private keys. */
  datatype Keys = Keys(ephemeral: Data, noiseKey: Data)

  /** Checks the certificate bytes against the server's static key. */
  type Certifier = (Data, Data) -> bool

  // --- the client ------------------------------------------------------------------------

  function ClientHello(s: Suite, header: Data, client: Keys): (Sym, Data) {
    var e := s.pub(client.ephemeral);
    (Authenticated(s, Started(s, Utf8.Encode(NOISE_PATTERN), header), e), e)
  }

  /** The server's static key, the certificate bytes and the state after them. */
  function ClientAccepts(s: Suite, client: Keys, y0: Sym, hello: ServerHello): Option<(Sym, Data, Data)> {
    if hello.ephemeral == [] || hello.staticCt == [] || hello.payloadCt == [] then None
    else if |hello.ephemeral| != 32 then None
    else match SharedMixed(s, Authenticated(s, y0, hello.ephemeral), client.ephemeral, hello.ephemeral)
      case None => None
      case Some(y1) =>
        match Opened(s, y1, hello.staticCt)
        case None => None
        case Some((y2, serverStatic)) =>
          if |serverStatic| != 32 then None
          else match SharedMixed(s, y2, client.ephemeral, serverStatic)
            case None => None
            case Some(y3) =>
              match Opened(s, y3, hello.payloadCt)
              case None => None
              case Some((y4, cert)) => Some((y4, serverStatic, cert))
  }

  function ClientFinishes(s: Suite, client: Keys, y: Sym, serverEphemeral: Data, payload: Data): Option<Finish> {
    var (y1, staticCt) := Sealed(s, y, s.pub(client.noiseKey));
    match SharedMixed(s, y1, client.noiseKey, serverEphemeral)
    case None => None
    case Some(y2) =>
      var (y3, payloadCt) := Sealed(s, y2, payload);
      Some(Finish(staticCt, payloadCt, y3))
  }

  function ClientRun(s: Suite, header: Data, client: Keys, payload: Data, certified: Certifier, hello: ServerHello)
    : Option<Finish>
  {
    match ClientAccepts(s, client, ClientHello(s, header, client).0, hello)
    case None => None
    case Some((y, serverStatic, cert)) =>
      if !certified(cert, serverStatic) then None
      else ClientFinishes(s, client, y, hello.ephemeral, payload)
  }

  /** What crosses the wire to the server. */
  datatype Sent = Hello(ephemeral: Data) | Finishing(staticCt: Data, payloadCt: Data)

  /**
   * The whole client side over one mutable symmetric state. `answer` is the server: it sees the
   * client's ephemeral key and produces the ServerHello.
   */
  method DoHandshake(s: Suite, header: Data, client: Keys, payload: Data, certified: Certifier,
                     answer: Data -> ServerHello)
    returns (r: Result<NoiseSocket>, sent: seq<Sent>)
    ensures var hello := answer(s.pub(client.ephemeral));
            match ClientRun(s, header, client, payload, certified, hello)
            case None => r.Err? && sent == [Hello(s.pub(client.ephemeral))]
            case Some(f) =>
              && r.Ok? && fresh(r.value) && r.value.suite == s
              && r.value.writeKey == s.Block(s.Extract(f.state.salt, []), [], 1)
              && r.value.readKey == s.Block(s.Extract(f.state.salt, []), [], 2)
              && r.value.writeCtr == 0 && r.value.readCtr == 0
              && sent == [Hello(s.pub(client.ephemeral)), Finishing(f.staticCt, f.payloadCt)]
  {
    hide Utf8.Encode, Started, Mixed, Sealed, Opened, SharedMixed, Authenticated;
    hide ClientAccepts, ClientFinishes;
    var nh := new NoiseHandshake(s);
    nh.Start(NOISE_PATTERN, header);
    var e := s.pub(client.ephemeral);
    nh.Authenticate(e);
    sent := [Hello(e)];
    assert nh.State() == ClientHello(s, header, client).0;

    var hello := answer(e);
    var cert := ReceiveHello(nh, client, hello);
    if cert.Err? || !certified(cert.value.1, cert.value.0) {
      return Err, sent;
    }
    var finish := SendFinish(nh, client, hello.ephemeral, payload);
    if finish.Err? {
      return Err, sent;
    }
    sent := sent + [Finishing(finish.value.0, finish.value.1)];

    var writeKey, readKey := nh.Finish();
    var socket := new NoiseSocket(s, writeKey, readKey);
    r := Ok(socket);
  }

  /** The ServerHello: the server's static key and the certificate bytes, or the first check that fails. */
  method ReceiveHello(nh: NoiseHandshake, client: Keys, hello: ServerHello) returns (r: Result<(Data, Data)>)
    modifies nh
    ensures match ClientAccepts(nh.suite, client, old(nh.State()), hello)
            case None => r == Err
            case Some((y, serverStatic, cert)) =>
              r == Ok((serverStatic, cert)) && nh.State() == y && nh.aead.Some?
  {
    hide Started, Mixed, Sealed, Opened, SharedMixed, Authenticated;
    if hello.ephemeral == [] || hello.staticCt == [] || hello.payloadCt == [] {
      return Err;
    }
    if |hello.ephemeral| != 32 {
      return Err;
    }
    nh.Authenticate(hello.ephemeral);
    ghost var y0 := nh.State();
    var ee := nh.MixSharedSecret(client.ephemeral, hello.ephemeral);
    NoSecret(nh.suite, y0, client.ephemeral, hello.ephemeral);
    if !ee {
      return Err;
    }
    var serverStatic := nh.Decrypt(hello.staticCt);
    if serverStatic.Err? || |serverStatic.value| != 32 {
      return Err;
    }
    ghost var y2 := nh.State();
    var es := nh.MixSharedSecret(client.ephemeral, serverStatic.value);
    NoSecret(nh.suite, y2, client.ephemeral, serverStatic.value);
    if !es {
      return Err;
    }
    var cert := nh.Decrypt(hello.payloadCt);
    r := if cert.Ok? then Ok((serverStatic.value, cert.value)) else Err;
  }

  /** The ClientFinish: the sealed static key and the sealed payload. */
  method SendFinish(nh: NoiseHandshake, client: Keys, serverEphemeral: Data, payload: Data)
    returns (r: Result<(Data, Data)>)
    requires nh.aead.Some?
    modifies nh
    ensures match ClientFinishes(nh.suite, client, old(nh.State()), serverEphemeral, payload)
            case None => r == Err
            case Some(f) => r == Ok((f.staticCt, f.payloadCt)) && nh.State() == f.state
  {
    hide Started, Mixed, Sealed, Opened, SharedMixed, Authenticated;
    var staticCt := nh.Encrypt(nh.suite.pub(client.noiseKey));
    ghost var y1 := nh.State();
    var se := nh.MixSharedSecret(client.noiseKey, serverEphemeral);
    NoSecret(nh.suite, y1, client.noiseKey, serverEphemeral);
    if !se {
      return Err;
    }
    var payloadCt := nh.Encrypt(payload);
    r := Ok((staticCt, payloadCt));
  }

  lemma NoSecret(s: Suite, y: Sym, priv: Data, pub: Data)
    ensures SharedMixed(s, y, priv, pub).Some? <==> s.dh(priv, pub).Some?
  {
  }

  // --- the responder -----------------------------------------------------------------------

  /** The mirrored first half: the responder's answer and its state after it. */
  function ServerAnswers(s: Suite, header: Data, server: Keys, cert: Data, clientEphemeral: Data)
    : Option<(Sym, ServerHello)>
  {
    var e := s.pub(server.ephemeral);
    var y0 := Authenticated(s, Started(s, Utf8.Encode(NOISE_PATTERN), header), clientEphemeral);
    match SharedMixed(s, Authenticated(s, y0, e), server.ephemeral, clientEphemeral)
    case None => None
    case Some(y1) =>
      var (y2, staticCt) := Sealed(s, y1, s.pub(server.noiseKey));
      match SharedMixed(s, y2, server.noiseKey, clientEphemeral)
      case None => None
      case Some(y3) =>
        var (y4, payloadCt) := Sealed(s, y3, cert);
        Some((y4, ServerHello(e, staticCt, payloadCt)))
  }

  /** The mirrored second half: final state, client's static key, client's payload. */
  function ServerAccepts(s: Suite, server: Keys, y: Sym, staticCt: Data, payloadCt: Data): Option<(Sym, Data, Data)> {
    match Opened(s, y, staticCt)
    case None => None
    case Some((y1, clientStatic)) =>
      match SharedMixed(s, y1, server.ephemeral, clientStatic)
      case None => None
      case Some(y2) =>
        match Opened(s, y2, payloadCt)
        case None => None
        case Some((y3, payload)) => Some((y3, clientStatic, payload))
  }

  // --- agreement -----------------------------------------------------------------------------

  /** What one end seals the other, in the same state, opens, and both move to the same state. */
  lemma SealOpens(s: Suite, y: Sym, m: Data)
    requires s.Lawful()
    ensures Sealed(s, y, m).1 != []
    ensures Opened(s, y, Sealed(s, y, m).1) == Some((Sealed(s, y, m).0, m))
  {
    assert s.open(y.key, Iv(y.counter), y.hash, s.seal(y.key, Iv(y.counter), y.hash, m)) == Some(m);
    assert s.seal(y.key, Iv(y.counter), y.hash, m) != [];
  }

  lemma SharedAgrees(s: Suite, y: Sym, a: Data, b: Data)
    requires s.Lawful()
    ensures SharedMixed(s, y, a, s.pub(b)).Some?
    ensures SharedMixed(s, y, a, s.pub(b)) == SharedMixed(s, y, b, s.pub(a))
  {
    assert s.dh(a, s.pub(b)).Some?;
    assert s.dh(a, s.pub(b)) == s.dh(b, s.pub(a));
  }

  /** After the responder's answer both ends hold the same state, and the client knows whom it talks to. */
  lemma HelloAgreement(s: Suite, header: Data, client: Keys, server: Keys, cert: Data)
    requires s.Lawful()
    ensures var answer := ServerAnswers(s, header, server, cert, s.pub(client.ephemeral));
            && answer.Some?
            && answer.value.1.ephemeral == s.pub(server.ephemeral)
            && ClientAccepts(s, client, ClientHello(s, header, client).0, answer.value.1)
               == Some((answer.value.0, s.pub(server.noiseKey), cert))
  {
    hide Utf8.Encode, Started, Mixed, Sealed, Opened, SharedMixed, Authenticated;
    var y0 := ClientHello(s, header, client).0;
    var y := Authenticated(s, y0, s.pub(server.ephemeral));
    SharedAgrees(s, y, client.ephemeral, server.ephemeral);
    var y1 := SharedMixed(s, y, client.ephemeral, s.pub(server.ephemeral)).value;
    SealOpens(s, y1, s.pub(server.noiseKey));
    var y2 := Sealed(s, y1, s.pub(server.noiseKey)).0;
    SharedAgrees(s, y2, client.ephemeral, server.noiseKey);
    var y3 := SharedMixed(s, y2, client.ephemeral, s.pub(server.noiseKey)).value;
    SealOpens(s, y3, cert);
    assert |s.pub(server.ephemeral)| == 32 && |s.pub(server.noiseKey)| == 32;
  }

  /** After the client's last message too, and the responder has the client's static key and payload. */
  lemma FinishAgreement(s: Suite, client: Keys, server: Keys, y: Sym, payload: Data)
    requires s.Lawful()
    ensures var f := ClientFinishes(s, client, y, s.pub(server.ephemeral), payload);
            && f.Some?
            && ServerAccepts(s, server, y, f.value.staticCt, f.value.payloadCt)
               == Some((f.value.state, s.pub(client.noiseKey), payload))
  {
    hide Utf8.Encode, Started, Mixed, Sealed, Opened, SharedMixed, Authenticated;
    SealOpens(s, y, s.pub(client.noiseKey));
    var y1 := Sealed(s, y, s.pub(client.noiseKey)).0;
    SharedAgrees(s, y1, client.noiseKey, server.ephemeral);
    var y2 := SharedMixed(s, y1, client.noiseKey, s.pub(server.ephemeral)).value;
    SealOpens(s, y2, payload);
  }

  /**
   * A client talking to a matching responder whose certificate checks out completes, and the
   * responder ends with the same hash, salt, key and counter, the client's static key and its payload.
   */
  lemma HandshakeAgreement(s: Suite, header: Data, client: Keys, server: Keys, cert: Data, payload: Data,
                           certified: Certifier)
    requires s.Lawful() && certified(cert, s.pub(server.noiseKey))
    ensures var answer := ServerAnswers(s, header, server, cert, s.pub(client.ephemeral));
            && answer.Some?
            && var f := ClientRun(s, header, client, payload, certified, answer.value.1);
            && f.Some?
            && ServerAccepts(s, server, answer.value.0, f.value.staticCt, f.value.payloadCt)
               == Some((f.value.state, s.pub(client.noiseKey), payload))
  {
    hide Utf8.Encode, Started, Authenticated, Mixed, ClientAccepts, ServerAnswers, ClientFinishes, ServerAccepts;
    HelloAgreement(s, header, client, server, cert);
    var y := ServerAnswers(s, header, server, cert, s.pub(client.ephemeral)).value.0;
    FinishAgreement(s, client, server, y, payload);
  }

  /** A certificate that does not check out stops the client, whatever else is right. */
  lemma UncertifiedRefused(s: Suite, header: Data, client: Keys, server: Keys, cert: Data, payload: Data,
                           certified: Certifier)
    requires s.Lawful() && !certified(cert, s.pub(server.noiseKey))
    ensures var answer := ServerAnswers(s, header, server, cert, s.pub(client.ephemeral));
            answer.Some? && ClientRun(s, header, client, payload, certified, answer.value.1) == None
  {
    hide Utf8.Encode, Started, Authenticated, Mixed, ClientAccepts, ServerAnswers, ClientFinishes;
    HelloAgreement(s, header, client, server, cert);
  }

  /** The responder's traffic keys: what it reads with, and what it writes with. */
  function ServerKeys(s: Suite, y: Sym): (Data, Data) {
    (s.Block(s.Extract(y.salt, []), [], 1), s.Block(s.Extract(y.salt, []), [], 2))
  }

  /**
   * End to end: each direction's frames, sealed in order under the keys one end derives from its own
   * final state, decrypt under those the other end derives from its own.
   */
  lemma TrafficCrosses(s: Suite, header: Data, client: Keys, server: Keys, cert: Data, payload: Data,
                       certified: Certifier, up: seq<Data>, down: seq<Data>)
    requires s.Lawful() && certified(cert, s.pub(server.noiseKey))
    ensures var answer := ServerAnswers(s, header, server, cert, s.pub(client.ephemeral));
            && answer.Some?
            && var f := ClientRun(s, header, client, payload, certified, answer.value.1);
            && f.Some?
            && var accepted := ServerAccepts(s, server, answer.value.0, f.value.staticCt, f.value.payloadCt);
            && accepted.Some?
            && var prk := s.Extract(f.value.state.salt, []);
               var (write, read) := (s.Block(prk, [], 1), s.Block(prk, [], 2));
               var (serverRead, serverWrite) := ServerKeys(s, accepted.value.0);
            && AcceptedFrames(s, serverRead, 0, SealedFrames(s, write, 0, up)) == up
            && AcceptedFrames(s, read, 0, SealedFrames(s, serverWrite, 0, down)) == down
  {
    hide ClientRun, ServerAnswers, ServerAccepts, AcceptedFrames, SealedFrames;
    HandshakeAgreement(s, header, client, server, cert, payload, certified);
    var y := ServerAnswers(s, header, server, cert, s.pub(client.ephemeral)).value;
    var f := ClientRun(s, header, client, payload, certified, y.1).value;
    var prk := s.Extract(f.state.salt, []);
    var (write, read) := (s.Block(prk, [], 1), s.Block(prk, [], 2));
    FramesCross(s, write, up);
    FramesCross(s, read, down);
  }

  lemma FramesCross(s: Suite, key: Data, plaintexts: seq<Data>)
    requires s.Lawful()
    ensures AcceptedFrames(s, key, 0, SealedFrames(s, key, 0, plaintexts)) == plaintexts
  {
    InOrderFrames(s, key, 0, plaintexts);
    GenuineFramesDecrypt(s, key, 0, plaintexts, SealedFrames(s, key, 0, plaintexts));
  }

  /** The responder as the client sees it; an empty answer stands for its failure. */
  function Answering(s: Suite, header: Data, server: Keys, cert: Data): Data -> ServerHello {
    (e: Data) => match ServerAnswers(s, header, server, cert, e)
                 case Some((_, hello)) => hello
                 case None => ServerHello([], [], [])
  }

  /**
   * The client's handshake against a matching responder, then frames in both directions over the
   * socket it returns and the one the responder builds from what it was sent: everything arrives.
   */
  method Converse(s: Suite, header: Data, client: Keys, server: Keys, cert: Data, payload: Data,
                  certified: Certifier, up: seq<Data>, down: seq<Data>)
    returns (learned: (Data, Data), gotUp: seq<Data>, gotDown: seq<Data>)
    requires s.Lawful() && certified(cert, s.pub(server.noiseKey))
    ensures learned == (s.pub(client.noiseKey), payload)
    ensures gotUp == up && gotDown == down
  {
    hide ClientRun, ServerAnswers, ServerAccepts, AcceptedFrames, SealedFrames, Suite.Lawful;
    HandshakeAgreement(s, header, client, server, cert, payload, certified);
    TrafficCrosses(s, header, client, server, cert, payload, certified, up, down);
    var socket, sent := DoHandshake(s, header, client, payload, certified, Answering(s, header, server, cert));
    var (y, _) := ServerAnswers(s, header, server, cert, sent[0].ephemeral).value;
    var accepted := ServerAccepts(s, server, y, sent[1].staticCt, sent[1].payloadCt).value;
    learned := (accepted.1, accepted.2);
    var (serverRead, serverWrite) := ServerKeys(s, accepted.0);
    var responder := new NoiseSocket(s, serverWrite, serverRead);
    var upward := socket.value.EncryptAll(up);
    gotUp := responder.DecryptAll(upward);
    var downward := responder.EncryptAll(down);
    gotDown := socket.value.DecryptAll(downward);
  }
}
