/**
 * The XX pattern as the Noise Protocol Framework spells it (sections 5.2, 5.3 and 7.5 of revision 34):
 * messages are lists of tokens, and one interpreter processes them for either role. Both ends of the
 * handshake are shown to be its runs. Two things differ from the framework: the first message carries no
 * payload, and the nonce counts 32 bits only.
 */
module NoisePattern {
  import opened Wrappers
  import opened Bytes
  import opened Noise
  import opened Handshake
  import Utf8

  // --- the symmetric functions -------------------------------------------------------------

  function MixHash(s: Suite, y: Sym, data: Data): Sym {
    Sym(s.sha(y.hash + data), y.salt, y.key, y.counter)
  }

  /** A new chaining key and cipher key out of the old chaining key, and a counter that starts over. */
  function MixKey(s: Suite, y: Sym, ikm: Data): Sym {
    var prk := s.Extract(y.salt, ikm);
    Sym(y.hash, s.Block(prk, [], 1), s.Block(prk, [], 2), 0)
  }

  /** The `n` low bytes of a number, highest first. */
  function BigBytes(v: nat, n: nat): (b: Data)
    ensures |b| == n
  {
    if n == 0 then [] else BigBytes(v / 256, n - 1) + [v % 256]
  }

  /** The nonce of section 12.4: four zero bytes and eight of the counter, here cut to 32 bits. */
  function Nonce(counter: nat): Data {
    [0, 0, 0, 0] + BigBytes(counter % 0x1_0000_0000, 8)
  }

  function EncryptAndHash(s: Suite, y: Sym, m: Data): (Sym, Data) {
    var ct := s.seal(y.key, Nonce(y.counter), y.hash, m);
    (MixHash(s, Sym(y.hash, y.salt, y.key, y.counter + 1), ct), ct)
  }

  function DecryptAndHash(s: Suite, y: Sym, ct: Data): Option<(Sym, Data)> {
    match s.open(y.key, Nonce(y.counter), y.hash, ct)
    case None => None
    case Some(m) => Some((MixHash(s, Sym(y.hash, y.salt, y.key, y.counter + 1), ct), m))
  }

  const PROTOCOL := "Noise_XX_25519_AESGCM_SHA256"

  /** A name padded with zeros to a hash length. */
  function Padded(name: string): (b: Data)
    ensures |b| == 32
  {
    seq(32, i requires 0 <= i < 32 => if i < |name| then name[i] as int % 256 else 0)
  }

  /** The padded name is hash and chaining key at first; the prologue is mixed in. */
  function Initial(s: Suite, prologue: Data): Sym {
    var name := Padded(PROTOCOL);
    MixHash(s, Sym(name, name, name, 0), prologue)
  }

  // --- the interpreter -----------------------------------------------------------------------

  datatype Token = E | S | EE | ES | SE | Payload

  const XX: seq<seq<Token>> := [[E], [E, EE, S, ES, Payload], [S, SE, Payload]]

  datatype Role = Initiator | Responder

  /** One end: its role, its own keys, and the other end's public keys as far as it has them. */
  datatype Party = Party(role: Role, own: Keys, re: Data, rs: Data)

  /** The Diffie-Hellman a token asks for: the first letter names the initiator's key. */
  function Shared(s: Suite, p: Party, t: Token): Option<Data>
    requires t.EE? || t.ES? || t.SE?
  {
    match (t, p.role)
    case (EE, _) => s.dh(p.own.ephemeral, p.re)
    case (ES, Initiator) => s.dh(p.own.ephemeral, p.rs)
    case (ES, Responder) => s.dh(p.own.noiseKey, p.re)
    case (SE, Initiator) => s.dh(p.own.noiseKey, p.re)
    case (SE, Responder) => s.dh(p.own.ephemeral, p.rs)
  }

  function MixShared(s: Suite, p: Party, y: Sym, t: Token): Option<Sym>
    requires t.EE? || t.ES? || t.SE?
  {
    match Shared(s, p, t)
    case None => None
    case Some(secret) => Some(MixKey(s, y, secret))
  }

  /** Writing a message: the state after it and what goes into its fields. */
  function Write(s: Suite, p: Party, y: Sym, tokens: seq<Token>, payload: Data): Option<(Sym, seq<Data>)>
    decreases |tokens|
  {
    if tokens == [] then Some((y, []))
    else match tokens[0]
      case E =>
        var e := s.pub(p.own.ephemeral);
        Behind(e, Write(s, p, MixHash(s, y, e), tokens[1..], payload))
      case S =>
        var (y', ct) := EncryptAndHash(s, y, s.pub(p.own.noiseKey));
        Behind(ct, Write(s, p, y', tokens[1..], payload))
      case Payload =>
        var (y', ct) := EncryptAndHash(s, y, payload);
        Behind(ct, Write(s, p, y', tokens[1..], payload))
      case t =>
        match MixShared(s, p, y, t)
        case None => None
        case Some(y') => Write(s, p, y', tokens[1..], payload)
  }

  function Behind(field: Data, rest: Option<(Sym, seq<Data>)>): Option<(Sym, seq<Data>)> {
    match rest
    case None => None
    case Some((y, fields)) => Some((y, [field] + fields))
  }

  /** Reading a message: the state after it, the keys learned from it and its payload. */
  function ReadMessage(s: Suite, p: Party, y: Sym, tokens: seq<Token>, fields: seq<Data>, payload: Data)
    : Option<(Sym, Party, Data)>
    decreases |tokens|
  {
    if tokens == [] then (if fields == [] then Some((y, p, payload)) else None)
    else match tokens[0]
      case E =>
        if fields == [] then None
        else ReadMessage(s, p.(re := fields[0]), MixHash(s, y, fields[0]), tokens[1..], fields[1..], payload)
      case S =>
        if fields == [] then None
        else (match DecryptAndHash(s, y, fields[0])
              case None => None
              case Some((y', rs)) => ReadMessage(s, p.(rs := rs), y', tokens[1..], fields[1..], payload))
      case Payload =>
        if fields == [] then None
        else (match DecryptAndHash(s, y, fields[0])
              case None => None
              case Some((y', m)) => ReadMessage(s, p, y', tokens[1..], fields[1..], m))
      case t =>
        match MixShared(s, p, y, t)
        case None => None
        case Some(y') => ReadMessage(s, p, y', tokens[1..], fields, payload)
  }

  // --- the model's operations are these ----------------------------------------------------------

  lemma NonceIsIv(counter: nat)
    ensures Iv(counter) == Nonce(counter)
  {
    var n := counter % 0x1_0000_0000;
    var n1, n2, n3 := n / 256, n / 256 / 256, n / 256 / 256 / 256;
    assert n2 == n / 0x1_0000 && n3 == n / 0x100_0000 && n3 / 256 == 0;
    assert BigBytes(0, 4) == [0, 0, 0, 0] by { ZeroBytes(4); }
    assert BigBytes(n, 8) == BigBytes(n1, 7) + [n % 256];
    assert BigBytes(n1, 7) == BigBytes(n2, 6) + [n1 % 256];
    assert BigBytes(n2, 6) == BigBytes(n3, 5) + [n2 % 256];
    assert BigBytes(n3, 5) == BigBytes(0, 4) + [n3 % 256];
  }

  lemma {:induction false} ZeroBytes(n: nat)
    ensures BigBytes(0, n) == seq(n, _ => 0)
  {
    if n > 0 {
      ZeroBytes(n - 1);
    }
  }

  lemma Functions(s: Suite, y: Sym, data: Data)
    ensures Authenticated(s, y, data) == MixHash(s, y, data)
    ensures Mixed(s, y, data) == MixKey(s, y, data)
    ensures Sealed(s, y, data) == EncryptAndHash(s, y, data)
    ensures Opened(s, y, data) == DecryptAndHash(s, y, data)
  {
    NonceIsIv(y.counter);
    s.HkdfPairIsHkdf(y.salt, data);
  }

  lemma StartIsInitial(s: Suite, header: Data)
    ensures Started(s, Utf8.Encode(NOISE_PATTERN), header) == Initial(s, header)
  {
    hide *;
    NameIsPattern(NOISE_PATTERN);
    StartedFrom(s, Padded(PROTOCOL), header);
  }

  lemma StartedFrom(s: Suite, name: Data, header: Data)
    requires name == Padded(PROTOCOL)
    ensures Started(s, name, header) == Initial(s, header)
  {
    hide Padded;
  }

  lemma NameIsPattern(pattern: string)
    requires pattern == NOISE_PATTERN
    ensures Utf8.Encode(pattern) == Padded(PROTOCOL)
  {
    PatternIsName();
    PaddedAscii(PROTOCOL, pattern);
  }

  lemma PatternIsName()
    ensures NOISE_PATTERN == PROTOCOL + "\0\0\0\0" && |PROTOCOL| == 28
    ensures forall i :: 0 <= i < |PROTOCOL| ==> PROTOCOL[i] < 128 as char
  {
  }

  lemma PaddedAscii(name: string, pattern: string)
    requires |name| == 28 && pattern == name + "\0\0\0\0"
    requires forall i :: 0 <= i < |name| ==> name[i] < 128 as char
    ensures Utf8.Encode(pattern) == Padded(name)
  {
    Utf8.AsciiBytes(pattern);
  }

  // --- both ends run the pattern ------------------------------------------------------------------

  function Client(client: Keys): Party {
    Party(Initiator, client, [], [])
  }

  function Server(server: Keys): Party {
    Party(Responder, server, [], [])
  }

  lemma WriteKey(s: Suite, p: Party, y: Sym, rest: seq<Token>, payload: Data)
    ensures Write(s, p, y, [E] + rest, payload)
            == Behind(s.pub(p.own.ephemeral),
                      Write(s, p, Authenticated(s, y, s.pub(p.own.ephemeral)), rest, payload))
  {
    Functions(s, y, s.pub(p.own.ephemeral));
    assert ([E] + rest)[1..] == rest;
  }

  lemma WriteSealed(s: Suite, p: Party, y: Sym, t: Token, rest: seq<Token>, payload: Data)
    requires t == S || t == Payload
    ensures var (y', ct) := Sealed(s, y, if t == S then s.pub(p.own.noiseKey) else payload);
            Write(s, p, y, [t] + rest, payload) == Behind(ct, Write(s, p, y', rest, payload))
  {
    Functions(s, y, if t == S then s.pub(p.own.noiseKey) else payload);
    assert ([t] + rest)[1..] == rest;
  }

  lemma WriteShared(s: Suite, p: Party, y: Sym, t: Token, rest: seq<Token>, payload: Data)
    requires t.EE? || t.ES? || t.SE?
    ensures Write(s, p, y, [t] + rest, payload)
            == match Shared(s, p, t)
               case None => None
               case Some(secret) => Write(s, p, Mixed(s, y, secret), rest, payload)
  {
    if Shared(s, p, t).Some? {
      Functions(s, y, Shared(s, p, t).value);
    }
    assert ([t] + rest)[1..] == rest;
  }

  /** The client's first message. */
  lemma ClientHelloIsXX(s: Suite, header: Data, client: Keys)
    ensures var (y, e) := ClientHello(s, header, client);
            Write(s, Client(client), Initial(s, header), XX[0], []) == Some((y, [e]))
  {
    hide Utf8.Encode, Started, Initial, Authenticated;
    StartIsInitial(s, header);
    assert XX[0] == [E] + [];
    WriteKey(s, Client(client), Initial(s, header), [], []);
    WriteNothing(s, Client(client), ClientHello(s, header, client).0, []);
    assert [s.pub(client.ephemeral)] + [] == [s.pub(client.ephemeral)];
  }

  /** The client's last message, for a server whose ephemeral key it has. */
  lemma ClientFinishIsXX(s: Suite, client: Keys, y: Sym, serverEphemeral: Data, serverStatic: Data, payload: Data)
    ensures var p := Party(Initiator, client, serverEphemeral, serverStatic);
            match ClientFinishes(s, client, y, serverEphemeral, payload)
            case None => Write(s, p, y, XX[2], payload) == None
            case Some(f) => Write(s, p, y, XX[2], payload) == Some((f.state, [f.staticCt, f.payloadCt]))
  {
    hide Sealed, Mixed, Write;
    var p := Party(Initiator, client, serverEphemeral, serverStatic);
    assert XX[2] == [S] + ([SE] + ([Payload] + []));
    WriteSealed(s, p, y, S, [SE] + ([Payload] + []), payload);
    var (y1, staticCt) := Sealed(s, y, s.pub(client.noiseKey));
    WriteTail(s, p, y1, SE, payload);
    assert forall ct: Data :: [staticCt] + [ct] == [staticCt, ct];
  }

  lemma WriteNothing(s: Suite, p: Party, y: Sym, payload: Data)
    ensures Write(s, p, y, [], payload) == Some((y, []))
  {
  }

  // --- reading ------------------------------------------------------------------------------------

  lemma ReadKey(s: Suite, p: Party, y: Sym, rest: seq<Token>, field: Data, fields: seq<Data>, payload: Data)
    ensures ReadMessage(s, p, y, [E] + rest, [field] + fields, payload)
            == ReadMessage(s, p.(re := field), Authenticated(s, y, field), rest, fields, payload)
  {
    Functions(s, y, field);
    assert ([E] + rest)[1..] == rest && ([field] + fields)[1..] == fields;
  }

  lemma ReadSealed(s: Suite, p: Party, y: Sym, t: Token, rest: seq<Token>, ct: Data, fields: seq<Data>, payload: Data)
    requires t == S || t == Payload
    ensures ReadMessage(s, p, y, [t] + rest, [ct] + fields, payload)
            == match Opened(s, y, ct)
               case None => None
               case Some((y', m)) =>
                 ReadMessage(s, if t == S then p.(rs := m) else p, y', rest, fields, if t == S then payload else m)
  {
    Functions(s, y, ct);
    assert ([t] + rest)[1..] == rest && ([ct] + fields)[1..] == fields;
  }

  lemma ReadShared(s: Suite, p: Party, y: Sym, t: Token, rest: seq<Token>, fields: seq<Data>, payload: Data)
    requires t.EE? || t.ES? || t.SE?
    ensures ReadMessage(s, p, y, [t] + rest, fields, payload)
            == match Shared(s, p, t)
               case None => None
               case Some(secret) => ReadMessage(s, p, Mixed(s, y, secret), rest, fields, payload)
  {
    if Shared(s, p, t).Some? {
      Functions(s, y, Shared(s, p, t).value);
    }
    assert ([t] + rest)[1..] == rest;
  }

  lemma ReadNothing(s: Suite, p: Party, y: Sym, payload: Data)
    ensures ReadMessage(s, p, y, [], [], payload) == Some((y, p, payload))
  {
  }

  /** The second message, read by the client. */
  lemma SecondMessage(s: Suite, client: Keys, y: Sym, e: Data, staticCt: Data, payloadCt: Data)
    ensures ReadMessage(s, Client(client), y, XX[1], [e, staticCt, payloadCt], [])
            == match SharedMixed(s, Authenticated(s, y, e), client.ephemeral, e)
               case None => None
               case Some(y1) =>
                 match Opened(s, y1, staticCt)
                 case None => None
                 case Some((y2, serverStatic)) =>
                   match SharedMixed(s, y2, client.ephemeral, serverStatic)
                   case None => None
                   case Some(y3) =>
                     match Opened(s, y3, payloadCt)
                     case None => None
                     case Some((y4, m)) => Some((y4, Party(Initiator, client, e, serverStatic), m))
  {
    hide Opened, Mixed, Authenticated, ReadMessage;
    var p, p0 := Client(client), Party(Initiator, client, e, []);
    var y0 := Authenticated(s, y, e);
    var tail := [staticCt] + ([payloadCt] + []);
    assert XX[1] == [E] + ([EE] + ([S] + ([ES] + ([Payload] + [])))) && [e, staticCt, payloadCt] == [e] + tail;
    ReadKey(s, p, y, [EE] + ([S] + ([ES] + ([Payload] + []))), e, tail, []);
    ReadShared(s, p0, y0, EE, [S] + ([ES] + ([Payload] + [])), tail, []);
    if Shared(s, p0, EE).Some? {
      var y1 := Mixed(s, y0, Shared(s, p0, EE).value);
      ReadSealed(s, p0, y1, S, [ES] + ([Payload] + []), staticCt, [payloadCt] + [], []);
      match Opened(s, y1, staticCt) {
        case None =>
        case Some((y2, serverStatic)) => ReadTail(s, p0.(rs := serverStatic), y2, ES, payloadCt);
      }
    }
  }

  /**
   * The client's reading of the second message: missing fields and wrong lengths apart, it is the pattern's,
   * and it learns the server's static key and the payload.
   */
  lemma ClientReadIsXX(s: Suite, client: Keys, y: Sym, hello: ServerHello)
    ensures var fields := [hello.ephemeral, hello.staticCt, hello.payloadCt];
            ClientAccepts(s, client, y, hello)
            == if [] in fields || |hello.ephemeral| != 32 then None
               else match ReadMessage(s, Client(client), y, XX[1], fields, [])
                 case None => None
                 case Some((y', p, payload)) => if |p.rs| == 32 then Some((y', p.rs, payload)) else None
  {
    hide Opened, SharedMixed, Authenticated, ReadMessage;
    SecondMessage(s, client, y, hello.ephemeral, hello.staticCt, hello.payloadCt);
  }

  /** One more Diffie-Hellman and the payload end a message. */
  lemma ReadTail(s: Suite, p: Party, y: Sym, t: Token, payloadCt: Data)
    requires t.ES? || t.SE?
    ensures ReadMessage(s, p, y, [t] + ([Payload] + []), [payloadCt] + [], [])
            == match Shared(s, p, t)
               case None => None
               case Some(secret) =>
                 match Opened(s, Mixed(s, y, secret), payloadCt)
                 case None => None
                 case Some((y', m)) => Some((y', p, m))
  {
    hide Opened, Mixed, ReadMessage;
    ReadShared(s, p, y, t, [Payload] + [], [payloadCt] + [], []);
    if Shared(s, p, t).Some? {
      var y1 := Mixed(s, y, Shared(s, p, t).value);
      ReadSealed(s, p, y1, Payload, [], payloadCt, [], []);
      match Opened(s, y1, payloadCt) {
        case None =>
        case Some((y2, m)) => ReadNothing(s, p, y2, m);
      }
    }
  }

  /** The pattern run by the client: missing fields, wrong lengths and a refused certificate end it. */
  function Run(s: Suite, header: Data, client: Keys, payload: Data, certified: Certifier, hello: ServerHello)
    : Option<(Sym, seq<Data>)>
  {
    var fields := [hello.ephemeral, hello.staticCt, hello.payloadCt];
    if [] in fields || |hello.ephemeral| != 32 then None
    else match Write(s, Client(client), Initial(s, header), XX[0], [])
      case None => None
      case Some((y0, _)) =>
        match ReadMessage(s, Client(client), y0, XX[1], fields, [])
        case None => None
        case Some((y, p, cert)) =>
          if |p.rs| != 32 || !certified(cert, p.rs) then None else Write(s, p, y, XX[2], payload)
  }

  /** The client's whole side of the handshake is that run. */
  lemma ClientRunIsXX(s: Suite, header: Data, client: Keys, payload: Data, certified: Certifier, hello: ServerHello)
    ensures Run(s, header, client, payload, certified, hello)
            == match ClientRun(s, header, client, payload, certified, hello)
               case None => None
               case Some(f) => Some((f.state, [f.staticCt, f.payloadCt]))
  {
    hide ClientHello, ClientAccepts, ClientFinishes, Initial, Write, ReadMessage;
    ClientHelloIsXX(s, header, client);
    var y0 := ClientHello(s, header, client).0;
    ClientReadIsXX(s, client, y0, hello);
    var fields := [hello.ephemeral, hello.staticCt, hello.payloadCt];
    if [] !in fields && |hello.ephemeral| == 32 {
      match ReadMessage(s, Client(client), y0, XX[1], fields, []) {
        case None =>
        case Some((y, p, cert)) =>
          SecondMessage(s, client, y0, hello.ephemeral, hello.staticCt, hello.payloadCt);
          ClientFinishIsXX(s, client, y, hello.ephemeral, p.rs, payload);
      }
    }
  }

  // --- the responder ------------------------------------------------------------------------------

  /** The responder's answer is the pattern's second message behind its reading of the first. */
  lemma ServerAnswerIsXX(s: Suite, header: Data, server: Keys, cert: Data, clientEphemeral: Data)
    ensures var p := Server(server).(re := clientEphemeral);
            var y0 := Authenticated(s, Initial(s, header), clientEphemeral);
            && ReadMessage(s, Server(server), Initial(s, header), XX[0], [clientEphemeral], []) == Some((y0, p, []))
            && match ServerAnswers(s, header, server, cert, clientEphemeral)
               case None => Write(s, p, y0, XX[1], cert) == None
               case Some((y, hello)) =>
                 Write(s, p, y0, XX[1], cert) == Some((y, [hello.ephemeral, hello.staticCt, hello.payloadCt]))
  {
    hide Utf8.Encode, Started, Initial, Sealed, Mixed, Authenticated, Write, ReadMessage;
    StartIsInitial(s, header);
    assert XX[0] == [E] + [] && [clientEphemeral] == [clientEphemeral] + [];
    ReadKey(s, Server(server), Initial(s, header), [], clientEphemeral, [], []);
    var p := Server(server).(re := clientEphemeral);
    var y0 := Authenticated(s, Initial(s, header), clientEphemeral);
    ReadNothing(s, p, y0, []);
    assert XX[1] == [E] + ([EE] + ([S] + ([ES] + ([Payload] + []))));
    WriteKey(s, p, y0, [EE] + ([S] + ([ES] + ([Payload] + []))), cert);
    var e := s.pub(server.ephemeral);
    var y1 := Authenticated(s, y0, e);
    WriteShared(s, p, y1, EE, [S] + ([ES] + ([Payload] + [])), cert);
    if Shared(s, p, EE).Some? {
      var y2 := Mixed(s, y1, Shared(s, p, EE).value);
      WriteSealed(s, p, y2, S, [ES] + ([Payload] + []), cert);
      var (y3, staticCt) := Sealed(s, y2, s.pub(server.noiseKey));
      WriteTail(s, p, y3, ES, cert);
      assert forall ct: Data :: [e] + ([staticCt] + [ct]) == [e, staticCt, ct];
    }
  }

  lemma WriteTail(s: Suite, p: Party, y: Sym, t: Token, payload: Data)
    requires t.ES? || t.SE?
    ensures Write(s, p, y, [t] + ([Payload] + []), payload)
            == match Shared(s, p, t)
               case None => None
               case Some(secret) =>
                 var (y', ct) := Sealed(s, Mixed(s, y, secret), payload); Some((y', [ct]))
  {
    hide Sealed, Mixed, Write;
    WriteShared(s, p, y, t, [Payload] + [], payload);
    if Shared(s, p, t).Some? {
      var y1 := Mixed(s, y, Shared(s, p, t).value);
      WriteSealed(s, p, y1, Payload, [], payload);
      var (y2, ct) := Sealed(s, y1, payload);
      WriteNothing(s, p, y2, payload);
      assert [ct] + [] == [ct];
    }
  }

  /** And what it reads at the end is the third message. */
  lemma ServerReadIsXX(s: Suite, server: Keys, clientEphemeral: Data, y: Sym, staticCt: Data, payloadCt: Data)
    ensures ServerAccepts(s, server, y, staticCt, payloadCt)
            == match ReadMessage(s, Server(server).(re := clientEphemeral), y, XX[2], [staticCt, payloadCt], [])
               case None => None
               case Some((y', p, payload)) => Some((y', p.rs, payload))
  {
    hide Opened, Mixed, ReadMessage;
    var p := Server(server).(re := clientEphemeral);
    assert XX[2] == [S] + ([SE] + ([Payload] + [])) && [staticCt, payloadCt] == [staticCt] + ([payloadCt] + []);
    ReadSealed(s, p, y, S, [SE] + ([Payload] + []), staticCt, [payloadCt] + [], []);
    match Opened(s, y, staticCt) {
      case None =>
      case Some((y1, clientStatic)) => ReadTail(s, p.(rs := clientStatic), y1, SE, payloadCt);
    }
  }
}
