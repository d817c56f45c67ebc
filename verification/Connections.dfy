// A connection before play: handshake, login, configuration, and the burst of registry packets.

module Connections {
  import opened Common
  import opened Buffers
  import opened Frames
  import opened Packets
  import opened Utf8
  import PacketIO

  const LOGIN_SUCCESS := 0x02
  const LOGIN_PLUGIN := 0x01
  const FINISH_CONFIGURATION := 0x03
  const REGISTRY_DATA := 0x07
  const UPDATE_ENABLED_FEATURES := 0x0c
  const UPDATE_TAGS := 0x0d
  const SELECT_KNOWN_PACKS := 0x0e

  // ---- the registry burst ----

  datatype Registry = Registry(key: seq<byte>, ids: seq<seq<byte>>)

  /** What is embedded in the server: the registries and the captured tags. */
  datatype Embedded = Embedded(registries: seq<Registry>, tags: seq<byte>)

  function Entries(ids: seq<seq<byte>>): (es: seq<RegistryEntry>)
    ensures |es| == |ids| && forall i :: 0 <= i < |ids| ==> es[i] == RegistryEntry(ids[i], None)
  {
    seq(|ids|, i requires 0 <= i < |ids| => RegistryEntry(ids[i], None))
  }

  function Features(): Message {
    EnabledFeatures([Ascii("minecraft:vanilla")])
  }

  function Packs(): Message {
    SelectKnownPacks([KnownPack(Ascii("minecraft"), Ascii("core"), Ascii("26.2"))])
  }

  function RegistryPacket(r: Registry): Packet {
    Packet(REGISTRY_DATA, Body(RegistryData(r.key, Entries(r.ids))))
  }

  function RegistryPackets(rs: seq<Registry>): seq<Packet> {
    seq(|rs|, i requires 0 <= i < |rs| => RegistryPacket(rs[i]))
  }

  /** Features, known packs, every registry in order, tags, finish. */
  function Burst(content: Embedded): seq<Packet> {
    [Packet(UPDATE_ENABLED_FEATURES, Body(Features())), Packet(SELECT_KNOWN_PACKS, Body(Packs()))]
    + RegistryPackets(content.registries)
    + [Packet(UPDATE_TAGS, content.tags), Packet(FINISH_CONFIGURATION, [])]
  }

  /** `build_registry_packets` */
  method BuildRegistryPackets(content: Embedded) returns (packets: seq<Packet>)
    ensures packets == Burst(content)
  {
    hide Ascii, Body, RegistryPacket;
    var fb := new Bytes([]);
    PutMessage(Features(), fb);
    assert fb.data == Body(Features());
    packets := [Packet(UPDATE_ENABLED_FEATURES, fb.data)];

    var pb := new Bytes([]);
    PutMessage(Packs(), pb);
    assert pb.data == Body(Packs());
    packets := packets + [Packet(SELECT_KNOWN_PACKS, pb.data)];

    ghost var opening := packets;
    assert opening == [Packet(UPDATE_ENABLED_FEATURES, Body(Features())), Packet(SELECT_KNOWN_PACKS, Body(Packs()))];
    var rs := content.registries;
    for i := 0 to |rs|
      invariant packets == opening + RegistryPackets(rs[..i])
    {
      var body := BuildRegistryBody(rs[i]);
      packets := packets + [Packet(REGISTRY_DATA, body)];
      assert RegistryPackets(rs[..i + 1]) == RegistryPackets(rs[..i]) + [RegistryPacket(rs[i])];
    }
    assert rs[..|rs|] == rs;

    packets := packets + [Packet(UPDATE_TAGS, content.tags)];
    packets := packets + [Packet(FINISH_CONFIGURATION, [])];
  }

  /** The features and known-packs bodies, written as the protocol crate writes these packets. */
  method PutMessage(m: Message, buf: Bytes)
    requires m.EnabledFeatures? || m.SelectKnownPacks?
    modifies buf
    ensures buf.data == old(buf.data) + Body(m)
  {
    hide ListBytes;
    match m
    case EnabledFeatures(features) => PacketIO.PutFeatures(features, buf);
    case SelectKnownPacks(packs) => PacketIO.PutPacks(packs, buf);
  }

  /** One turn of the registry loop: each id is followed by a zero, which is the flag for an entry without data. */
  method BuildRegistryBody(r: Registry) returns (body: seq<byte>)
    ensures Packet(REGISTRY_DATA, body) == RegistryPacket(r)
  {
    hide IntBytes, StringBytes, ManyBytes, EntryBytes;
    var buf := new Bytes([]);
    PacketIO.PutString(r.key, buf);
    assert buf.data == StringBytes(r.key);
    WriteLength(|r.ids|, buf);
    ghost var head := buf.data;
    ghost var entries := Entries(r.ids);
    assert ManyBytes(EntryBytes, entries[..0]) == [] by { PacketIO.NoneBytes(EntryBytes, entries[..0]); }
    for i := 0 to |r.ids|
      invariant buf.data == head + ManyBytes(EntryBytes, entries[..i])
    {
      PutBareEntry(r.ids[i], buf);
      PacketIO.ManyAppend(EntryBytes, entries[..i], entries[i]);
      assert entries[..i] + [entries[i]] == entries[..i + 1];
    }
    assert entries[..|entries|] == entries;
    return buf.data;
  }

  method PutBareEntry(id: seq<byte>, buf: Bytes)
    modifies buf
    ensures buf.data == old(buf.data) + EntryBytes(RegistryEntry(id, None))
  {
    assert IntBytes(0) == [0];
    hide IntBytes, StringBytes;
    PacketIO.PutString(id, buf);
    PacketIO.PutInt(0, buf);
  }

  // ---- the phases ----

  datatype Phase = AwaitHandshake | Login | Config

  datatype State = State(phase: Phase, playerUuid: nat, draws: nat, sent: seq<Packet>)

  const INIT := State(AwaitHandshake, 0, 0, [])

  /** `Bail` closes the connection with an error, `Panic` is a Rust panic, `Play` hands over to the play phase. */
  datatype Reaction = Continue(state: State) | Bail | Panic | Play(state: State)

  /** Random numbers are drawn from `rng`; `content` is what the server embeds. */
  datatype Env = Env(rng: nat -> nat, content: Embedded)

  datatype Verdict = Accept | Refuse | Abort

  /** The server's own reading of a handshake, which takes the port without a check. */
  function JudgeHandshake(body: seq<byte>): Verdict {
    match ReadInt(body)
    case Fail(_) => Refuse
    case Got(_, s1) =>
      match ReadString(s1)
      case Fail(_) => Refuse
      case Got(_, s2) =>
        if |s2| < 2 then Abort
        else
          match ReadInt(s2[2..])
          case Fail(_) => Refuse
          case Got(next, _) => if next == 2 then Accept else Refuse
  }

  /** The server's own reading of a login start, which takes the uuid without a check. */
  function JudgeLogin(body: seq<byte>): Verdict {
    match ReadString(body)
    case Fail(_) => Refuse
    case Got(_, rest) => if |rest| < 16 then Abort else Accept
  }

  function LoginUuid(body: seq<byte>): nat
    requires JudgeLogin(body) == Accept
  {
    BigEndian(ReadString(body).rest[..16])
  }

  function LoginSuccess(uuid: nat, name: seq<byte>, random: nat): Packet {
    Packet(LOGIN_SUCCESS, ToBigEndian(uuid, 16) + StringBytes(name) + IntBytes(0) + ToBigEndian(random, 16))
  }

  function Brand(): Packet {
    Packet(LOGIN_PLUGIN, StringBytes(Ascii("minecraft:brand")) + StringBytes(Ascii("vanilla")))
  }

  /** The two packets that answer a login start. */
  function LoginAnswer(body: seq<byte>, random: nat): seq<Packet>
    requires JudgeLogin(body) == Accept
  {
    [LoginSuccess(LoginUuid(body), ReadString(body).value, random), Brand()]
  }

  function React(st: State, p: Packet, env: Env): Reaction {
    match st.phase
    case AwaitHandshake =>
      if p.id != 0x00 then Bail
      else
        (match JudgeHandshake(p.body)
         case Accept => Continue(st.(phase := Login))
         case Refuse => Bail
         case Abort => Panic)
    case Login =>
      if p.id == 0x00 then
        (match JudgeLogin(p.body)
         case Accept =>
           Continue(st.(playerUuid := LoginUuid(p.body), draws := st.draws + 1,
                        sent := st.sent + LoginAnswer(p.body, env.rng(st.draws))))
         case Refuse => Bail
         case Abort => Panic)
      else if p.id == 0x03 then Continue(st.(phase := Config, sent := st.sent + Burst(env.content)))
      else Continue(st)
    case Config =>
      if p.id == FINISH_CONFIGURATION then Play(st) else Continue(st)
  }

  class Connection {
    const env: Env
    var phase: Phase
    var playerUuid: nat
    var draws: nat
    var sent: seq<Packet>

    ghost function Abs(): State
      reads this
    {
      State(phase, playerUuid, draws, sent)
    }

    constructor (env: Env)
      ensures this.env == env && Abs() == INIT
    {
      this.env := env;
      phase, playerUuid, draws, sent := AwaitHandshake, 0, 0, [];
    }

    /** One turn of the packet loop of `handle_connection`. */
    method Handle(p: Packet) returns (outcome: Reaction)
      modifies this
      ensures outcome == React(old(Abs()), p, env)
      ensures outcome.Continue? ==> Abs() == outcome.state
      ensures !outcome.Continue? ==> Abs() == old(Abs())
    {
      hide JudgeHandshake, JudgeLogin, LoginUuid, LoginAnswer, Burst;
      match phase {
        case AwaitHandshake =>
          if p.id != 0x00 {
            return Bail;
          }
          var verdict := CheckHandshake(p.body);
          if verdict != Accept {
            return if verdict == Refuse then Bail else Panic;
          }
          phase := Login;
        case Login =>
          if p.id == 0x00 {
            var verdict := AnswerLogin(p.body);
            if verdict != Accept {
              return if verdict == Refuse then Bail else Panic;
            }
          } else if p.id == 0x03 {
            phase := Config;
            var regs := BuildRegistryPackets(env.content);
            sent := sent + regs;
          }
        case Config =>
          if p.id == FINISH_CONFIGURATION {
            return Play(State(phase, playerUuid, draws, sent));
          }
      }
      return Continue(State(phase, playerUuid, draws, sent));
    }

    /** The login start: remember the uuid, confirm the login, announce the brand. */
    method AnswerLogin(body: seq<byte>) returns (v: Verdict)
      modifies this
      ensures v == JudgeLogin(body)
      ensures v == Accept ==>
                Abs() == old(Abs()).(playerUuid := LoginUuid(body), draws := old(draws) + 1,
                                     sent := old(sent) + LoginAnswer(body, env.rng(old(draws))))
      ensures v != Accept ==> Abs() == old(Abs())
    {
      hide ReadString, LoginSuccess, Brand, BigEndian;
      var data := new Bytes(body);
      var name := PacketIO.TakeString(data);
      if name.Failure? {
        return Refuse;
      }
      if |data.data| < 16 {
        return Abort;
      }
      var uuidBytes := data.SplitTo(16);
      playerUuid := BigEndian(uuidBytes);
      var success := BuildLoginSuccess(playerUuid, name.value, env.rng(draws));
      draws := draws + 1;
      sent := sent + [success];
      var brand := BuildBrand();
      sent := sent + [brand];
      return Accept;
    }

    static method BuildLoginSuccess(uuid: nat, name: seq<byte>, random: nat) returns (p: Packet)
      ensures p == LoginSuccess(uuid, name, random)
    {
      hide StringBytes, IntBytes, ToBigEndian;
      var body := new Bytes(ToBigEndian(uuid, 16));
      PacketIO.PutString(name, body);
      PacketIO.PutInt(0, body);
      body.Extend(ToBigEndian(random, 16));
      return Packet(LOGIN_SUCCESS, body.data);
    }

    static method BuildBrand() returns (p: Packet)
      ensures p == Brand()
    {
      hide StringBytes, Ascii;
      var body := new Bytes([]);
      PacketIO.PutString(Ascii("minecraft:brand"), body);
      PacketIO.PutString(Ascii("vanilla"), body);
      assert body.data == StringBytes(Ascii("minecraft:brand")) + StringBytes(Ascii("vanilla"));
      return Packet(LOGIN_PLUGIN, body.data);
    }

    method CheckHandshake(body: seq<byte>) returns (v: Verdict)
      ensures v == JudgeHandshake(body)
    {
      hide ReadInt, ReadString;
      var data := new Bytes(body);
      var proto := PacketIO.TakeInt(data);
      if proto.Failure? {
        return Refuse;
      }
      var addr := PacketIO.TakeString(data);
      if addr.Failure? {
        return Refuse;
      }
      if |data.data| < 2 {
        return Abort;
      }
      var port := data.SplitTo(2);
      var next := PacketIO.TakeInt(data);
      if next.Failure? {
        return Refuse;
      }
      return if next.value == 2 then Accept else Refuse;
    }
  }

  // ---- whole runs ----

  /** What a sequence of packets leads to; `used` counts the packets handled when play is entered. */
  datatype Run = Waiting(state: State) | Ended | Playing(state: State, used: nat)

  function Handled(st: State, ps: seq<Packet>, env: Env): Run
    decreases |ps|
  {
    if ps == [] then Waiting(st)
    else
      match React(st, ps[0], env)
      case Bail => Ended
      case Panic => Ended
      case Play(st') => Playing(st', 1)
      case Continue(st') =>
        match Handled(st', ps[1..], env)
        case Playing(end, n) => Playing(end, n + 1)
        case Waiting(end) => Waiting(end)
        case Ended => Ended
  }

  /** A login-phase packet that leaves the phase: answered if it is a login start, ignored otherwise. */
  predicate LoginPacket(p: Packet) {
    p.id != 0x03 && (p.id == 0x00 ==> JudgeLogin(p.body) == Accept)
  }

  /** What the login-phase packets are answered with. */
  function Answers(ps: seq<Packet>, draws: nat, env: Env): seq<Packet>
    requires forall i :: 0 <= i < |ps| ==> LoginPacket(ps[i])
  {
    if ps == [] then []
    else if ps[0].id == 0x00 then
      assert LoginPacket(ps[0]);
      LoginAnswer(ps[0].body, env.rng(draws)) + Answers(ps[1..], draws + 1, env)
    else Answers(ps[1..], draws, env)
  }

  predicate ConfigWay(ps: seq<Packet>, n: nat) {
    0 < n <= |ps| && ps[n - 1].id == 0x03 && forall i :: 0 <= i < n - 1 ==> ps[i].id != 0x03
  }

  lemma {:induction false} FromConfig(st: State, ps: seq<Packet>, n: nat, env: Env)
    requires st.phase == Config
    ensures ConfigWay(ps, n) ==> Handled(st, ps, env) == Playing(st, n)
    ensures Handled(st, ps, env).Playing? && Handled(st, ps, env).used == n ==> ConfigWay(ps, n)
    decreases |ps|
  {
    if ps != [] && ps[0].id != 0x03 {
      FromConfig(st, ps[1..], if n > 0 then n - 1 else 0, env);
      assert forall i :: 0 < i < |ps| ==> ps[i] == ps[1..][i - 1];
      assert forall i :: 0 <= i < |ps| - 1 ==> ps[1..][i] == ps[i + 1];
    }
  }

  predicate LoginWay(ps: seq<Packet>, login: nat, n: nat) {
    && login < n <= |ps|
    && (forall i :: 0 <= i < login ==> LoginPacket(ps[i]))
    && ps[login].id == 0x03
    && ConfigWay(ps[login + 1..], n - login - 1)
  }

  lemma {:induction false} LoginLeadsToPlay(st: State, ps: seq<Packet>, login: nat, n: nat, env: Env)
    requires st.phase == Login && LoginWay(ps, login, n)
    ensures var end := Handled(st, ps, env);
            && end.Playing? && end.used == n
            && end.state.sent == st.sent + Answers(ps[..login], st.draws, env) + Burst(env.content)
    decreases login
  {
    hide Burst, LoginAnswer, LoginUuid, JudgeLogin;
    var next := React(st, ps[0], env).state;
    if login == 0 {
      FromConfig(next, ps[1..], n - 1, env);
      assert st.sent + [] == st.sent;
    } else {
      assert LoginPacket(ps[0]);
      assert ps[1..][login - 1] == ps[login] && ps[1..][login..] == ps[login + 1..];
      assert forall i :: 0 <= i < login - 1 ==> ps[1..][i] == ps[i + 1];
      LoginLeadsToPlay(next, ps[1..], login - 1, n - 1, env);
      assert ps[..login][0] == ps[0] && ps[..login][1..] == ps[1..][..login - 1];
      var later := Answers(ps[1..][..login - 1], next.draws, env);
      if ps[0].id == 0x00 {
        var first := LoginAnswer(ps[0].body, env.rng(st.draws));
        assert st.sent + first + later == st.sent + (first + later);
      }
    }
  }

  lemma {:induction false} LoginIsTheWay(st: State, ps: seq<Packet>, env: Env) returns (login: nat)
    requires st.phase == Login && Handled(st, ps, env).Playing?
    ensures LoginWay(ps, login, Handled(st, ps, env).used)
    decreases |ps|
  {
    hide Burst, LoginAnswer, LoginUuid, JudgeLogin, ConfigWay;
    var n := Handled(st, ps, env).used;
    var next := React(st, ps[0], env).state;
    if ps[0].id == 0x03 {
      login := 0;
      FromConfig(next, ps[1..], n - 1, env);
    } else {
      var k := LoginIsTheWay(next, ps[1..], env);
      login := k + 1;
      assert ps[1..][k] == ps[login] && ps[1..][k + 1..] == ps[login + 1..];
      assert forall i :: 0 < i < login ==> ps[i] == ps[1..][i - 1];
      assert LoginPacket(ps[0]);
    }
  }

  /** Exactly the ways into play: a handshake for login, login packets up to an 0x03, then packets up to another 0x03. */
  predicate WayIn(ps: seq<Packet>, login: nat, n: nat) {
    && 0 < login < n <= |ps|
    && ps[0].id == 0x00 && JudgeHandshake(ps[0].body) == Accept
    && (forall i :: 0 < i < login ==> LoginPacket(ps[i]))
    && ps[login].id == 0x03
    && ConfigWay(ps[login + 1..], n - login - 1)
  }

  lemma WayInSplit(ps: seq<Packet>, login: nat, n: nat)
    requires ps != [] && 0 < login && 0 < n
    ensures WayIn(ps, login, n)
       <==> ps[0].id == 0x00 && JudgeHandshake(ps[0].body) == Accept && LoginWay(ps[1..], login - 1, n - 1)
  {
    hide JudgeHandshake, ConfigWay, LoginPacket;
    var rest := ps[1..];
    if login < |ps| {
      assert rest[login - 1] == ps[login] && rest[login..] == ps[login + 1..];
      assert forall i :: 0 < i < login ==> ps[i] == rest[i - 1];
      assert forall i :: 0 <= i < login - 1 ==> rest[i] == ps[i + 1];
    }
  }

  /**
   * On any sequence of packets: play is entered with the n-th packet exactly if there is a way in of that length, and by
   * then the login starts have been answered in order and the registry burst has been sent once, as the last thing.
   */
  lemma PlayEnteredExactly(ps: seq<Packet>, n: nat, env: Env)
    ensures Handled(INIT, ps, env).Playing? && Handled(INIT, ps, env).used == n <==> exists login: nat :: WayIn(ps, login, n)
    ensures forall login: nat | WayIn(ps, login, n) ::
              Handled(INIT, ps, env).state.sent == Answers(ps[1..login], 0, env) + Burst(env.content)
  {
    hide JudgeHandshake, JudgeLogin, Burst, LoginAnswer, LoginUuid;
    if ps != [] {
      if Handled(INIT, ps, env).Playing? && Handled(INIT, ps, env).used == n {
        var k := LoginIsTheWay(INIT.(phase := Login), ps[1..], env);
        WayInSplit(ps, k + 1, n);
        assert WayIn(ps, k + 1, n);
      }
      forall login: nat | WayIn(ps, login, n)
        ensures Handled(INIT, ps, env).Playing? && Handled(INIT, ps, env).used == n
        ensures Handled(INIT, ps, env).state.sent == Answers(ps[1..login], 0, env) + Burst(env.content)
      {
        WayInLeadsToPlay(ps, login, n, env);
      }
    } else {
      hide WayIn;
      forall login: nat
        ensures !WayIn(ps, login, n)
      {
        NoWayInFromNothing(login, n);
      }
    }
  }

  lemma NoWayInFromNothing(login: nat, n: nat)
    ensures !WayIn([], login, n)
  {
  }

  lemma WayInLeadsToPlay(ps: seq<Packet>, login: nat, n: nat, env: Env)
    requires WayIn(ps, login, n)
    ensures Handled(INIT, ps, env).Playing? && Handled(INIT, ps, env).used == n
    ensures Handled(INIT, ps, env).state.sent == Answers(ps[1..login], 0, env) + Burst(env.content)
  {
    hide JudgeHandshake, JudgeLogin, Burst, LoginAnswer, LoginUuid;
    WayInSplit(ps, login, n);
    LoginLeadsToPlay(INIT.(phase := Login), ps[1..], login - 1, n - 1, env);
    assert ps[1..][..login - 1] == ps[1..login];
    assert [] + Answers(ps[1..login], 0, env) == Answers(ps[1..login], 0, env);
  }

  // ---- clients that follow the protocol ----

  /** The server accepts the handshake of a well-behaved client exactly if it asks for a login. */
  lemma HandshakeJudged(m: Message)
    requires m.Handshake? && WellFormed(m)
    ensures JudgeHandshake(Body(m)) == if m.next == LoginState then Accept else Refuse
  {
    hide ReadInt, ReadString, IntBytes, StringBytes, ToBigEndian, ValidUtf8;
    var port, next := ToBigEndian(m.port, 2), IntBytes(HandshakeValue(m.next));
    IntBack(m.protocol, StringBytes(m.address) + (port + next));
    StringBack(m.address, port + next);
    IntBack(HandshakeValue(m.next), []);
    assert (port + next)[2..] == next == next + [];
  }

  /** The server accepts the login start of a well-behaved client and reads its name and uuid. */
  lemma LoginJudged(m: Message)
    requires m.LoginStart? && WellFormed(m)
    ensures JudgeLogin(Body(m)) == Accept && LoginUuid(Body(m)) == m.uuid && ReadString(Body(m)).value == m.name
  {
    hide ReadString, StringBytes, ToBigEndian, ValidUtf8, Pow256, BigEndian;
    var uuid := ToBigEndian(m.uuid, 16);
    StringBack(m.name, uuid);
    BigEndianOfDigits(m.uuid, 16);
    assert uuid[..16] == uuid;
  }

  /** A handshake that is cut short in its port makes the server panic; cut short elsewhere, it is refused. */
  lemma HandshakeCutJudged(m: Message, k: nat)
    requires m.Handshake? && WellFormed(m) && k < |Body(m)|
    ensures var n := |IntBytes(m.protocol)| + |StringBytes(m.address)|;
            JudgeHandshake(Body(m)[..k]) == if n <= k < n + 2 then Abort else Refuse
  {
    hide ReadInt, ReadString, IntBytes, StringBytes, ToBigEndian, ShortText, HandshakeValue, InRange, ShortString;
    SmallValue(m.next);
    var p, address, port, v := |IntBytes(m.protocol)|, StringBytes(m.address), ToBigEndian(m.port, 2), HandshakeValue(m.next);
    IntPart(m.protocol, address + (port + IntBytes(v)), k);
    if k >= p {
      StringPart(m.address, port + IntBytes(v), k - p);
      if k - p >= |address| { HandshakeEnd(port, v, k - p - |address|); }
    }
  }

  /** A login start that is cut short in its name is refused; in its uuid, it makes the server panic. */
  lemma LoginCutJudged(m: Message, k: nat)
    requires m.LoginStart? && WellFormed(m) && k < |Body(m)|
    ensures JudgeLogin(Body(m)[..k]) == if k < |StringBytes(m.name)| then Refuse else Abort
  {
    hide ReadString, StringBytes, ToBigEndian, ShortText, Pow256, ShortString;
    StringPart(m.name, ToBigEndian(m.uuid, 16), k);
  }

  /** A packet whose body is empty. */
  const ACKNOWLEDGE := Packet(0x03, [])

  /** From the acknowledgement of the login on; `chatter` is what a client says during configuration. */
  function Rest(chatter: seq<Packet>): seq<Packet> {
    [ACKNOWLEDGE] + (chatter + [ACKNOWLEDGE])
  }

  /** What a client sends to enter play. */
  function Entrance(hello: Message, starts: seq<Packet>, chatter: seq<Packet>): seq<Packet> {
    [Packet(0x00, Body(hello))] + (starts + Rest(chatter))
  }

  lemma ConfigTail(st: State, chatter: seq<Packet>, env: Env)
    requires st.phase == Config && forall p <- chatter :: p.id != 0x03
    ensures Handled(st, chatter + [ACKNOWLEDGE], env) == Playing(st, |chatter| + 1)
  {
    var ps := chatter + [ACKNOWLEDGE];
    assert forall i :: 0 <= i < |chatter| ==> ps[i] == chatter[i];
    FromConfig(st, ps, |chatter| + 1, env);
  }

  lemma HandledFirst(st: State, p: Packet, rest: seq<Packet>, env: Env)
    requires React(st, p, env).Continue? && Handled(React(st, p, env).state, rest, env).Playing?
    ensures var end := Handled(React(st, p, env).state, rest, env);
            Handled(st, [p] + rest, env) == Playing(end.state, end.used + 1)
  {
    hide React;
    assert ([p] + rest)[1..] == rest;
  }

  /** From the login phase: an acknowledgement brings the burst, another one brings play. */
  lemma LoginTail(st: State, chatter: seq<Packet>, env: Env)
    requires st.phase == Login && forall p <- chatter :: p.id != 0x03
    ensures Handled(st, Rest(chatter), env)
         == Playing(st.(phase := Config, sent := st.sent + Burst(env.content)), |chatter| + 2)
  {
    hide Burst;
    ConfigTail(st.(phase := Config, sent := st.sent + Burst(env.content)), chatter, env);
    hide Handled;
    HandledFirst(st, ACKNOWLEDGE, chatter + [ACKNOWLEDGE], env);
  }

  /** A handshake for login leads on to the login phase. */
  lemma HelloFirst(hello: Message, starts: seq<Packet>, chatter: seq<Packet>, env: Env)
    requires hello.Handshake? && WellFormed(hello) && hello.next == LoginState
    requires Handled(INIT.(phase := Login), starts + Rest(chatter), env).Playing?
    ensures var end := Handled(INIT.(phase := Login), starts + Rest(chatter), env);
            Handled(INIT, Entrance(hello, starts, chatter), env) == Playing(end.state, end.used + 1)
  {
    hide JudgeHandshake, JudgeLogin, LoginAnswer, LoginUuid, Burst, Body, WellFormed, Rest, Handled;
    HandshakeJudged(hello);
    var p := Packet(0x00, Body(hello));
    assert React(INIT, p, env) == Continue(INIT.(phase := Login));
    HandledFirst(INIT, p, starts + Rest(chatter), env);
  }

  /** A client that follows the protocol enters play under its own uuid, with its login answered and the burst sent. */
  lemma ClientEntersPlay(hello: Message, login: Message, chatter: seq<Packet>, env: Env)
    requires hello.Handshake? && WellFormed(hello) && hello.next == LoginState
    requires login.LoginStart? && WellFormed(login) && forall p <- chatter :: p.id != 0x03
    ensures var ps := Entrance(hello, [Packet(0x00, Body(login))], chatter);
            var sent := [LoginSuccess(login.uuid, login.name, env.rng(0)), Brand()] + Burst(env.content);
            Handled(INIT, ps, env) == Playing(State(Config, login.uuid, 1, sent), |ps|)
  {
    LoginJudged(login);
    hide JudgeLogin, LoginUuid, Burst, LoginSuccess, Brand, Body, ReadString, WellFormed;
    var answer := LoginAnswer(Body(login), env.rng(0));
    assert [] + answer == answer;
    LoginTail(State(Login, login.uuid, 1, answer), chatter, env);
    hide Handled, Rest;
    HandledFirst(INIT.(phase := Login), Packet(0x00, Body(login)), Rest(chatter), env);
    hide LoginAnswer, React;
    HelloFirst(hello, [Packet(0x00, Body(login))], chatter, env);
  }

  /** A login start is not needed: without one the player keeps the uuid zero. */
  lemma PlayWithoutLoginStart(hello: Message, chatter: seq<Packet>, env: Env)
    requires hello.Handshake? && WellFormed(hello) && hello.next == LoginState && forall p <- chatter :: p.id != 0x03
    ensures var ps := Entrance(hello, [], chatter);
            Handled(INIT, ps, env) == Playing(State(Config, 0, 0, Burst(env.content)), |ps|)
  {
    assert [] + Burst(env.content) == Burst(env.content);
    LoginTail(INIT.(phase := Login), chatter, env);
    hide Handled, Rest, Burst, WellFormed;
    assert [] + Rest(chatter) == Rest(chatter);
    HelloFirst(hello, [], chatter, env);
  }

  // ---- the burst as the client sees it ----

  /** The embedded data that fits the formats. */
  predicate Sendable(content: Embedded) {
    forall i :: 0 <= i < |content.registries| ==>
      var r := content.registries[i]; WellFormed(RegistryData(r.key, Entries(r.ids)))
  }

  /** Every registry packet of the burst is read by the client as its registry's key and ids, without data. */
  lemma BurstReadsBack(content: Embedded, i: nat)
    requires Sendable(content) && i < |content.registries|
    ensures var r := content.registries[i];
            && Burst(content)[i + 2] == RegistryPacket(r)
            && ReadBody(KRegistryData, Burst(content)[i + 2].body) == Got(RegistryData(r.key, Entries(r.ids)), [])
  {
    hide ReadBody, Body;
    var r := content.registries[i];
    ReadsBackExactly(RegistryData(r.key, Entries(r.ids)));
  }

  /**
   * The burst packet by packet: the features and the pack of the server's version, the registries in order, the tags, and
   * the end of the configuration, which comes last and only once.
   */
  predicate TellsAll(burst: seq<Packet>, content: Embedded) {
    var n := |content.registries|;
    && |burst| == n + 4
    && TellsFeatures(burst[0]) && TellsPacks(burst[1])
    && (forall i :: 0 <= i < n ==> TellsRegistry(burst[i + 2], content.registries[i]))
    && burst[n + 2] == Packet(0x0d, content.tags)
    && burst[n + 3] == Packet(0x03, [])
    && (forall i :: 0 <= i < n + 3 ==> burst[i].id != 0x03)
  }

  predicate TellsFeatures(p: Packet) {
    p.id == 0x0c && ReadBody(KEnabledFeatures, p.body) == Got(EnabledFeatures([Ascii("minecraft:vanilla")]), [])
  }

  predicate TellsPacks(p: Packet) {
    && p.id == 0x0e
    && ReadBody(KSelectKnownPacks, p.body)
       == Got(SelectKnownPacks([KnownPack(Ascii("minecraft"), Ascii("core"), Ascii("26.2"))]), [])
  }

  predicate TellsRegistry(p: Packet, r: Registry) {
    && p.id == 0x07
    && match ReadBody(KRegistryData, p.body)
       case Got(RegistryData(key, entries), rest) =>
         && key == r.key && rest == [] && |entries| == |r.ids|
         && forall i :: 0 <= i < |entries| ==> entries[i] == RegistryEntry(r.ids[i], None)
       case _ => false
  }

  lemma BurstExactly(content: Embedded)
    requires Sendable(content)
    ensures TellsAll(Burst(content), content)
  {
    hide TellsFeatures, TellsPacks, TellsRegistry, RegistryPacket, Features, Packs, Body;
    var burst, n := Burst(content), |content.registries|;
    FeaturesTold();
    PacksTold();
    forall i | 0 <= i < n
      ensures TellsRegistry(burst[i + 2], content.registries[i]) && burst[i + 2].id == 0x07
    {
      RegistryTold(content, i);
    }
  }

  lemma FeaturesTold()
    ensures TellsFeatures(Packet(UPDATE_ENABLED_FEATURES, Body(Features())))
  {
    hide Ascii, Body, ReadBody, ShortText;
    PlainText("minecraft:vanilla");
    FeatureRead(Ascii("minecraft:vanilla"));
  }

  lemma FeatureRead(t: seq<byte>)
    requires ShortText(t)
    ensures ReadBody(KEnabledFeatures, Body(EnabledFeatures([t]))) == Got(EnabledFeatures([t]), [])
  {
    hide Body, ReadBody, ShortText;
    ReadsBackExactly(EnabledFeatures([t]));
  }

  lemma PacksTold()
    ensures TellsPacks(Packet(SELECT_KNOWN_PACKS, Body(Packs())))
  {
    hide Ascii, Body, ReadBody, ShortText;
    PlainText("minecraft");
    PlainText("core");
    PlainText("26.2");
    PackRead(KnownPack(Ascii("minecraft"), Ascii("core"), Ascii("26.2")));
  }

  lemma PackRead(p: KnownPack)
    requires PackFits(p)
    ensures ReadBody(KSelectKnownPacks, Body(SelectKnownPacks([p]))) == Got(SelectKnownPacks([p]), [])
  {
    hide Body, ReadBody, PackFits;
    ReadsBackExactly(SelectKnownPacks([p]));
  }

  lemma RegistryTold(content: Embedded, i: nat)
    requires Sendable(content) && i < |content.registries|
    ensures Burst(content)[i + 2] == RegistryPacket(content.registries[i])
    ensures TellsRegistry(RegistryPacket(content.registries[i]), content.registries[i]) && RegistryPacket(content.registries[i]).id == 0x07
  {
    hide ReadBody, Body;
    BurstReadsBack(content, i);
  }

  lemma PlainText(s: string)
    requires |s| < 0x8000_0000 && forall i :: 0 <= i < |s| ==> s[i] < 128 as char
    ensures ShortText(Ascii(s))
  {
    AsciiIsValid(Ascii(s));
  }

  /** What the client reads in the answer to its login start: its uuid, its name, no properties, and a random number. */
  predicate Confirms(p: Packet, uuid: nat, name: seq<byte>, random: nat) {
    && p.id == 0x02 && |p.body| >= 16 && BigEndian(p.body[..16]) == uuid
    && match ReadString(p.body[16..])
       case Got(text, rest) => text == name && |rest| == 17 && rest[0] == 0 && BigEndian(rest[1..]) == random
       case Fail(_) => false
  }

  lemma LoginConfirmed(uuid: nat, name: seq<byte>, random: nat)
    requires uuid < Pow256(16) && random < Pow256(16) && ShortText(name)
    ensures Confirms(LoginSuccess(uuid, name, random), uuid, name, random)
  {
    var head, tail := ToBigEndian(uuid, 16), ToBigEndian(random, 16);
    assert IntBytes(0) == [0];
    hide ReadString, StringBytes, ToBigEndian, IntBytes, ShortText, Pow256, BigEndian;
    Parts(head, StringBytes(name), [0], tail);
    StringBack(name, [0] + tail);
    BigEndianOfDigits(uuid, 16);
    BigEndianOfDigits(random, 16);
    assert ([0] + tail)[1..] == tail;
  }

  lemma Parts(a: seq<byte>, b: seq<byte>, c: seq<byte>, d: seq<byte>)
    ensures (a + b + c + d)[..|a|] == a && (a + b + c + d)[|a|..] == b + (c + d)
  {
  }

  /** The packet after it names the server's brand: a channel and a text. */
  lemma BrandNamed()
    ensures Brand().id == 0x01
    ensures ReadString(Brand().body) == Got(Ascii("minecraft:brand"), StringBytes(Ascii("vanilla")))
    ensures ReadString(StringBytes(Ascii("vanilla"))) == Got(Ascii("vanilla"), [])
  {
    hide Ascii, ReadString, StringBytes, ShortText;
    PlainText("minecraft:brand");
    PlainText("vanilla");
    TextsRead(Ascii("minecraft:brand"), Ascii("vanilla"));
  }

  lemma TextsRead(a: seq<byte>, b: seq<byte>)
    requires ShortText(a) && ShortText(b)
    ensures ReadString(StringBytes(a) + StringBytes(b)) == Got(a, StringBytes(b))
    ensures ReadString(StringBytes(b)) == Got(b, [])
  {
    hide ReadString, StringBytes, ShortText;
    StringBack(a, StringBytes(b));
    StringBack(b, []);
    assert StringBytes(b) + [] == StringBytes(b);
  }
}
