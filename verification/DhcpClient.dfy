/** The DHCP client: its state machine as a function, the object that implements it, and what holds over all runs. */
module DhcpClient {
  import opened Common
  import opened DhcpCodec

  const MAX_RETRY := 2
  const WAIT_TIME := 10
  const REPLY_BUFFER_SIZE := 600

  const DISCOVER: byte := 1
  const OFFER: byte := 2
  const REQUEST: byte := 3
  const ACK: byte := 5
  const NAK: byte := 6

  datatype State = Idle | Discovering | Requesting | Bound
  datatype Info = Info(ip: seq<byte>, gw: seq<byte>, subnet: seq<byte>, dns: seq<byte>, lease: word)
  datatype Result = Failed | Running | IpAssign | IpLeased

  datatype Client = Client(state: State, retryCount: nat, tick: word, leaseTime: word, xid: word,
                           serverIp: seq<byte>, requestedIp: seq<byte>, info: Info)

  /** A message as it is sent: its type, its transaction id, and the options after the type. */
  datatype Sent = Sent(msgType: byte, xid: word, os: seq<Tlv>)

  datatype Outcome = Outcome(client: Client, result: Result, sent: seq<Sent>)

  // ---------- the state machine ----------

  const PARAMETERS: Tlv := Tlv(OPT_PARAM_REQ, [OPT_SUBNET_MASK, OPT_ROUTER, OPT_DNS, OPT_LEASE_TIME])
  const HOST_NAME: Tlv := Tlv(OPT_HOST_NAME, [119, 53, 53, 48, 48, 0]) // "w5500" and its terminator

  function Discover(c: Client): Sent {
    Sent(DISCOVER, c.xid, [PARAMETERS, HOST_NAME])
  }

  function Request(c: Client): Sent {
    Sent(REQUEST, c.xid, [Tlv(OPT_REQUESTED_IP, c.requestedIp), Tlv(OPT_SERVER_ID, c.serverIp), PARAMETERS, HOST_NAME])
  }

  function NextXid(xid: word): word {
    (xid + 1) % 0x1_0000_0000
  }

  function Or<T>(o: Option<T>, otherwise: T): T {
    match o case None => otherwise case Some(v) => v
  }

  /** A fresh DISCOVER, under a fresh transaction id. */
  function Restarted(c: Client): Outcome {
    var d := c.(state := Discovering, tick := 0, xid := NextXid(c.xid));
    Outcome(d, Running, [Discover(d)])
  }

  function TimedOut(c: Client): Outcome {
    if c.retryCount + 1 >= MAX_RETRY then Outcome(c.(state := Idle, retryCount := c.retryCount + 1), Failed, [])
    else Restarted(c.(retryCount := c.retryCount + 1))
  }

  function Asked(c: Client): Outcome {
    var d := c.(state := Requesting, tick := 0);
    Outcome(d, Running, [Request(d)])
  }

  /** One call of `DHCP_run`; `rx` is the datagram waiting at the socket, if it gets as far as looking. */
  function Run(c: Client, rx: Option<seq<byte>>): Outcome {
    match c.state
    case Idle => Restarted(c.(retryCount := 0))
    case Discovering =>
      if c.tick >= WAIT_TIME then TimedOut(c)
      else if rx.None? || ReplyOf(rx.value, c.xid).None? then Outcome(c, Running, [])
      else
        var r := ReplyOf(rx.value, c.xid).value;
        var d := c.(requestedIp := r.yiaddr, serverIp := Or(r.serverIp, c.serverIp));
        if r.msgType == Some(OFFER) then Asked(d) else Outcome(d, Running, [])
    case Requesting =>
      if c.tick >= WAIT_TIME then TimedOut(c)
      else if rx.None? || ReplyOf(rx.value, c.xid).None? then Outcome(c, Running, [])
      else
        var r := ReplyOf(rx.value, c.xid).value;
        var i := Info(r.yiaddr, Or(r.gateway, c.info.gw), Or(r.subnet, c.info.subnet), Or(r.dns, c.info.dns),
                      Or(r.lease, c.info.lease));
        var d := c.(info := i, serverIp := Or(r.serverIp, c.serverIp));
        if r.msgType == Some(ACK) then Outcome(d.(state := Bound, leaseTime := i.lease, tick := 0), IpAssign, [])
        else if r.msgType == Some(NAK) then Restarted(d)
        else Outcome(d, Running, [])
    case Bound =>
      if c.leaseTime > 0 && c.tick >= c.leaseTime / 2 then Asked(c)
      else Outcome(c, IpLeased, [])
  }

  function Zero4(): seq<byte> {
    [0, 0, 0, 0]
  }

  function Initial(mac: seq<byte>): Client
    requires |mac| == 6
  {
    Client(Idle, 0, 0, 0, BE32(mac, 2), Zero4(), Zero4(), Info(Zero4(), Zero4(), Zero4(), Zero4(), 0))
  }

  function Ticked(c: Client): Client {
    c.(tick := (c.tick + 1) % 0x1_0000_0000)
  }

  function GetInfo(c: Client): Option<Info> {
    if c.state != Bound then None else Some(c.info)
  }

  // ---------- all runs ----------

  datatype Action = Step(rx: Option<seq<byte>>) | Second | Stop

  /**
   * The client with its history: every message sent, the timeouts since it last left IDLE, the reply that bound it, and
   * the information it had before that reply.
   */
  datatype History = History(client: Client, sent: seq<Sent>, timeouts: nat, boundBy: Option<Reply>, before: Info)

  /** The history as `DHCP_init` leaves it. */
  function Fresh(mac: seq<byte>): History
    requires |mac| == 6
  {
    History(Initial(mac), [], 0, None, Initial(mac).info)
  }

  /** Whether this call takes a NAK from the datagram. */
  predicate TakesNak(c: Client, rx: Option<seq<byte>>): (b: bool)
    ensures b ==> c.state == Requesting && c.tick < 10 && rx.Some?
    ensures c.state == Requesting && c.tick < 10 && rx.Some? ==>
              (b <==> match ReplyOf(rx.value, c.xid) case None => false case Some(r) => r.msgType == Some(6))
  {
    && c.state == Requesting && c.tick < WAIT_TIME && rx.Some?
    && ReplyOf(rx.value, c.xid).Some? && ReplyOf(rx.value, c.xid).value.msgType == Some(NAK)
  }

  /** Whether this call finds the time for an answer over. */
  predicate TimesOut(c: Client) {
    (c.state == Discovering || c.state == Requesting) && c.tick >= WAIT_TIME
  }

  function After(h: History, a: Action): History {
    match a
    case Step(rx) =>
      var o := Run(h.client, rx);
      History(o.client, h.sent + o.sent,
              if h.client.state == Idle then 0 else if TimesOut(h.client) then h.timeouts + 1 else h.timeouts,
              if o.result == IpAssign && rx.Some? then ReplyOf(rx.value, h.client.xid) else h.boundBy,
              if o.result == IpAssign then h.client.info else h.before)
    case Second => h.(client := Ticked(h.client))
    case Stop => h.(client := h.client.(state := Idle))
  }

  function AfterAll(h: History, actions: seq<Action>): History
    decreases |actions|
  {
    if actions == [] then h else After(AfterAll(h, actions[..|actions| - 1]), actions[|actions| - 1])
  }

  /** A REQUEST for this address. */
  predicate AskedFor(s: Sent, ip: seq<byte>) {
    s.msgType == REQUEST && s.os != [] && s.os[0] == Tlv(OPT_REQUESTED_IP, ip)
  }

  /** What every reachable state satisfies. */
  ghost predicate Safe(h: History) {
    var c := h.client;
    && (c.state != Idle ==>
          && c.retryCount == h.timeouts < MAX_RETRY
          && h.sent != [] && h.sent[|h.sent| - 1].xid == c.xid)
    && (c.state == Requesting || c.state == Bound ==> AskedFor(h.sent[|h.sent| - 1], c.requestedIp))
    && (c.state == Bound ==>
          && h.boundBy.Some? && h.boundBy.value.msgType == Some(ACK)
          && c.leaseTime == c.info.lease
          && Granted(c.info, h.boundBy.value, h.before))
  }

  /**
   * The information an ACK leaves: each field is that of the message, or what it was if the message does not have it.
   */
  predicate Granted(info: Info, ack: Reply, before: Info) {
    && info.ip == ack.yiaddr
    && (if ack.gateway.Some? then Some(info.gw) == ack.gateway else info.gw == before.gw)
    && (if ack.subnet.Some? then Some(info.subnet) == ack.subnet else info.subnet == before.subnet)
    && (if ack.dns.Some? then Some(info.dns) == ack.dns else info.dns == before.dns)
    && (if ack.lease.Some? then Some(info.lease) == ack.lease else info.lease == before.lease)
  }

  lemma StepIsSafe(h: History, a: Action)
    requires Safe(h)
    ensures Safe(After(h, a))
  {
    hide ReplyOf;
  }

  /** From `DHCP_init` on, over any run of calls, datagrams, seconds and stops. */
  lemma {:induction false} RunsAreSafe(mac: seq<byte>, actions: seq<Action>)
    requires |mac| == 6
    ensures Safe(AfterAll(Fresh(mac), actions))
  {
    if actions != [] {
      RunsAreSafe(mac, actions[..|actions| - 1]);
      StepIsSafe(AfterAll(Fresh(mac), actions[..|actions| - 1]), actions[|actions| - 1]);
    }
  }

  /**
   * BOUND is entered only from REQUESTING, by an ACK that carries the
   * transaction id of the last message sent, a REQUEST.
   */
  lemma {:induction false} BoundOnlyByAck(mac: seq<byte>, actions: seq<Action>, a: Action)
    requires |mac| == 6
    requires var h := AfterAll(Fresh(mac), actions);
      h.client.state != Bound && After(h, a).client.state == Bound
    ensures var h := AfterAll(Fresh(mac), actions);
      && h.client.state == Requesting && a.Step? && a.rx.Some? && h.sent != []
      && var last := h.sent[|h.sent| - 1];
      && last.msgType == 3
      && Acceptable(a.rx.value, last.xid)
      && ReplyOf(a.rx.value, last.xid).value.msgType == Some(5)
  {
    hide FieldsOf, Acceptable;
    RunsAreSafe(mac, actions);
  }

  /**
   * REQUESTING is entered only by an OFFER that carries the transaction id of the last DISCOVER, and then the address
   * offered is what is asked for; or when half of a lease that the ACK granted is over.
   */
  lemma {:induction false} RequestsWhatWasOffered(mac: seq<byte>, actions: seq<Action>, a: Action)
    requires |mac| == 6
    requires var h := AfterAll(Fresh(mac), actions);
      h.client.state != Requesting && After(h, a).client.state == Requesting
    ensures var h := AfterAll(Fresh(mac), actions);
            var g := After(h, a);
      && a.Step? && h.sent != []
      && g.sent == h.sent + [Request(g.client)] && g.client.xid == h.sent[|h.sent| - 1].xid
      && if h.client.state == Discovering
         then && a.rx.Some? && Acceptable(a.rx.value, h.sent[|h.sent| - 1].xid)
              && ReplyOf(a.rx.value, h.client.xid).value.msgType == Some(2)
              && g.client.requestedIp == ReplyOf(a.rx.value, h.client.xid).value.yiaddr
         else && h.client.state == Bound && h.boundBy.Some?
              && 0 < h.client.info.lease && h.client.info.lease / 2 <= h.client.tick
  {
    hide FieldsOf, Acceptable;
    RunsAreSafe(mac, actions);
  }

  /**
   * Every DISCOVER opens a transaction of its own: its id is the one after
   * that of the message before it, whatever that was.
   */
  lemma {:induction false} DiscoversAreFresh(mac: seq<byte>, actions: seq<Action>, a: Action)
    requires |mac| == 6
    ensures var h := AfterAll(Fresh(mac), actions);
            var g := After(h, a);
      && |h.sent| <= |g.sent| <= |h.sent| + 1 && h.sent <= g.sent
      && (|g.sent| > |h.sent| && g.sent[|h.sent|].msgType == 1 ==>
            && g.sent[|h.sent|].xid == (h.client.xid + 1) % 0x1_0000_0000
            && (h.client.state != Idle ==>
                  h.sent != [] && g.sent[|h.sent|].xid == (h.sent[|h.sent| - 1].xid + 1) % 0x1_0000_0000)
            && g.client.state == Discovering && g.client.tick == 0)
  {
    hide ReplyOf;
    RunsAreSafe(mac, actions);
  }

  /**
   * A datagram makes a difference only to a client that waits for one, and only if it carries the transaction id of
   * the last message sent: an OFFER, an ACK, a NAK, or one of another type of which only the fields are taken.
   */
  lemma {:induction false} OnlyOwnRepliesCount(mac: seq<byte>, actions: seq<Action>, rx: seq<byte>)
    requires |mac| == 6
    ensures var h := AfterAll(Fresh(mac), actions);
      Run(h.client, Some(rx)) != Run(h.client, None) ==>
        && (h.client.state == Discovering || h.client.state == Requesting) && h.client.tick < 10
        && h.sent != [] && Acceptable(rx, h.sent[|h.sent| - 1].xid)
  {
    hide FieldsOf, Acceptable;
    RunsAreSafe(mac, actions);
  }

  /**
   * A renewal asks for the address of the last OFFER, which need not be the leased one: it is exactly if the ACK
   * assigned the address that the REQUEST it answered, the last message sent, had asked for.
   */
  lemma {:induction false} RenewalAsksForTheLeaseIff(mac: seq<byte>, actions: seq<Action>)
    requires |mac| == 6
    requires AfterAll(Fresh(mac), actions).client.state == Bound
    ensures var h := AfterAll(Fresh(mac), actions);
      && h.boundBy.Some? && h.sent != [] && h.sent[|h.sent| - 1].os != []
      && (AskedFor(Request(h.client), h.client.info.ip) <==>
            h.boundBy.value.yiaddr == h.sent[|h.sent| - 1].os[0].data)
  {
    hide ReplyOf;
    RunsAreSafe(mac, actions);
  }

  /** And it may assign any: there is an ACK for every address that a waiting client accepts. */
  lemma AnyAddressIsAccepted(c: Client, ip: seq<byte>, mac: seq<byte>) returns (rx: seq<byte>)
    requires c.state == Requesting && c.tick < WAIT_TIME && |ip| == 4 && |mac| == 6
    ensures var d := Run(c, Some(rx)).client;
      d.state == Bound && d.info.ip == ip && (AskedFor(Request(d), ip) <==> c.requestedIp == ip)
  {
    var own := Header(c.xid, None, mac);
    OwnHeader(c.xid, None, mac);
    var h := own[..YIADDR_OFFSET] + ip + own[YIADDR_OFFSET + 4..];
    assert h[YIADDR_OFFSET..YIADDR_OFFSET + 4] == ip;
    assert h[MAGIC_OFFSET..OPTIONS_OFFSET] == own[MAGIC_OFFSET..OPTIONS_OFFSET];
    var ack := Tlv(OPT_MSG_TYPE, [ACK]);
    rx := h + Encode([ack]) + [OPT_END] + [];
    MessageRoundTrip(h, [ack], [], c.xid);
    assert [] + [ack] == [ack];
    LastOfAppend([], ack, OPT_MSG_TYPE, 1);
  }

  /** The client fails exactly at the second timeout since it left IDLE. */
  lemma {:induction false} FailsAtTheSecondTimeout(mac: seq<byte>, actions: seq<Action>, rx: Option<seq<byte>>)
    requires |mac| == 6
    ensures var h := AfterAll(Fresh(mac), actions);
      Run(h.client, rx).result == Failed <==>
        && (h.client.state == Discovering || h.client.state == Requesting) && h.client.tick >= 10
        && After(h, Step(rx)).timeouts == 2
  {
    hide ReplyOf;
    RunsAreSafe(mac, actions);
  }

  /**
   * Lease information is given out in BOUND only, and then it is what the ACK granted: the address it assigned, and of
   * router, subnet mask, DNS server and lease time what it carried, or else what there was before.
   */
  lemma {:induction false} InfoIsTheLease(mac: seq<byte>, actions: seq<Action>)
    requires |mac| == 6
    ensures var h := AfterAll(Fresh(mac), actions);
      && (GetInfo(h.client).Some? <==> h.client.state == Bound)
      && (GetInfo(h.client).Some? ==>
            h.boundBy.Some? && h.boundBy.value.msgType == Some(5)
            && var i, ack := GetInfo(h.client).value, h.boundBy.value;
            && i.ip == ack.yiaddr
            && (match ack.gateway case None => i.gw == h.before.gw case Some(v) => i.gw == v)
            && (match ack.subnet case None => i.subnet == h.before.subnet case Some(v) => i.subnet == v)
            && (match ack.dns case None => i.dns == h.before.dns case Some(v) => i.dns == v)
            && (match ack.lease case None => i.lease == h.before.lease case Some(v) => i.lease == v))
  {
    RunsAreSafe(mac, actions);
  }

  /** A call in BOUND asks for the lease again exactly if half of it is over, and otherwise changes nothing. */
  lemma {:induction false} RenewsAtHalfTheLease(mac: seq<byte>, actions: seq<Action>, rx: Option<seq<byte>>)
    requires |mac| == 6
    requires AfterAll(Fresh(mac), actions).client.state == Bound
    ensures var h := AfterAll(Fresh(mac), actions);
      var g := After(h, Step(rx));
      if 0 < h.client.info.lease && h.client.info.lease / 2 <= h.client.tick
      then && g.client == h.client.(state := Requesting, tick := 0) && Run(h.client, rx).result == Running
           && g.sent == h.sent + [Request(h.client)]
      else g == h && Run(h.client, rx).result == IpLeased
  {
    hide ReplyOf;
    RunsAreSafe(mac, actions);
    assert AfterAll(Fresh(mac), actions).sent + [] == AfterAll(Fresh(mac), actions).sent;
  }

  /** One call on numbers: 10 seconds to wait, 2 timeouts, and the message types 1, 2, 3, 5 and 6. */
  lemma CallsByNumber(c: Client, rx: Option<seq<byte>>)
    ensures var o := Run(c, rx);
      var next := (c.xid + 1) % 4294967296;
      match c.state
      case Idle =>
        && o.client == c.(state := Discovering, retryCount := 0, tick := 0, xid := next) && o.result == Running
        && |o.sent| == 1 && o.sent[0].msgType == 1 && o.sent[0].xid == next
      case Bound =>
        if c.leaseTime > 0 && c.tick >= c.leaseTime / 2
        then && o.client == c.(state := Requesting, tick := 0) && o.result == Running
             && |o.sent| == 1 && o.sent[0].msgType == 3 && o.sent[0].xid == c.xid
        else o == Outcome(c, IpLeased, [])
      case _ =>
        if c.tick >= 10 && c.retryCount >= 1
        then o == Outcome(c.(state := Idle, retryCount := c.retryCount + 1), Failed, [])
        else if c.tick >= 10
        then && o.client == c.(state := Discovering, retryCount := 1, tick := 0, xid := next) && o.result == Running
             && |o.sent| == 1 && o.sent[0].msgType == 1 && o.sent[0].xid == next
        else rx.None? || ReplyOf(rx.value, c.xid).None? ==> o == Outcome(c, Running, [])
  {
    hide ReplyOf;
  }

  /** A reply taken while waiting for an OFFER. */
  lemma OfferByNumber(c: Client, rx: seq<byte>, r: Reply)
    requires c.state == Discovering && c.tick < 10 && ReplyOf(rx, c.xid) == Some(r)
    ensures var o := Run(c, Some(rx));
      var d := c.(requestedIp := r.yiaddr, serverIp := match r.serverIp case None => c.serverIp case Some(v) => v);
      && o.result == Running
      && if r.msgType == Some(2)
         then && o.client == d.(state := Requesting, tick := 0)
              && |o.sent| == 1 && o.sent[0].msgType == 3 && o.sent[0].xid == c.xid
         else o.client == d && o.sent == []
  {
    hide ReplyOf;
  }

  /** A reply taken while waiting for an ACK: whatever its type, the fields it has are taken, and no others change. */
  lemma AckByNumber(c: Client, rx: seq<byte>, r: Reply)
    requires c.state == Requesting && c.tick < 10 && ReplyOf(rx, c.xid) == Some(r)
    ensures var o := Run(c, Some(rx));
      && o.client.info.ip == r.yiaddr
      && (match r.gateway case None => o.client.info.gw == c.info.gw case Some(v) => o.client.info.gw == v)
      && (match r.subnet case None => o.client.info.subnet == c.info.subnet case Some(v) => o.client.info.subnet == v)
      && (match r.dns case None => o.client.info.dns == c.info.dns case Some(v) => o.client.info.dns == v)
      && (match r.lease case None => o.client.info.lease == c.info.lease case Some(v) => o.client.info.lease == v)
      && (match r.serverIp case None => o.client.serverIp == c.serverIp case Some(v) => o.client.serverIp == v)
      && o.client.requestedIp == c.requestedIp && o.client.retryCount == c.retryCount
      && (if r.msgType == Some(5)
          then && o.result == IpAssign && o.sent == [] && o.client.state == Bound && o.client.tick == 0
               && o.client.leaseTime == o.client.info.lease && o.client.xid == c.xid
          else o.result == Running && o.client.leaseTime == c.leaseTime)
      && (r.msgType == Some(6) ==>
            && o.client.state == Discovering && o.client.tick == 0 && o.client.xid == (c.xid + 1) % 4294967296
            && |o.sent| == 1 && o.sent[0].msgType == 1 && o.sent[0].xid == o.client.xid)
      && (r.msgType != Some(5) && r.msgType != Some(6) ==>
            o.client.state == Requesting && o.client.tick == c.tick && o.client.xid == c.xid && o.sent == [])
  {
    hide ReplyOf;
  }

  /** The bytes of an ACK with mask `m`, router `g`, DNS server `d` and lease `t` behind the header `h`. */
  ghost function AckBytes(h: seq<byte>, m: seq<byte>, g: seq<byte>, d: seq<byte>, t: seq<byte>): seq<byte> {
    h + [53, 1, 5] + [1, 4] + m + [3, 4] + g + [6, 4] + d + [51, 4] + t + [255]
  }

  /** From the bytes of an ACK to the information given out, with nothing in between. */
  lemma LeaseFromBytes(c: Client, h: seq<byte>, m: seq<byte>, g: seq<byte>, d: seq<byte>, t: seq<byte>)
    requires c.state == Requesting && c.tick < 10
    requires |h| == 240 && h[236..240] == [99, 130, 83, 99]
    requires c.xid == 16777216 * h[4] as int + 65536 * h[5] as int + 256 * h[6] as int + h[7] as int
    requires |m| == |g| == |d| == |t| == 4
    ensures var o := Run(c, Some(AckBytes(h, m, g, d, t)));
      var lease := 16777216 * t[0] as int + 65536 * t[1] as int + 256 * t[2] as int + t[3] as int;
      && o.result == IpAssign && o.sent == [] && o.client.leaseTime == lease && o.client.tick == 0
      && GetInfo(o.client) == Some(Info(h[16..20], g, m, d, lease))
  {
    hide Run, ReplyOf, FieldsOf, Acceptable;
    var os := [Tlv(53, [5]), Tlv(1, m), Tlv(3, g), Tlv(6, d), Tlv(51, t)];
    AckIsEncoded(h, m, g, d, t);
    AcceptableByNumber(h, c.xid);
    MessageRoundTrip(h, os, [], c.xid);
    FieldsByNumber(os, h[16..20]);
    FieldsOfAck(m, g, d, t);
    assert m[..4] == m && g[..4] == g && d[..4] == d;
    AckRuns(c, AckBytes(h, m, g, d, t), FieldsOf(os, h[16..20]));
  }

  lemma AckRuns(c: Client, rx: seq<byte>, r: Reply)
    requires c.state == Requesting && c.tick < 10 && ReplyOf(rx, c.xid) == Some(r) && r.msgType == Some(5)
    requires r.gateway.Some? && r.subnet.Some? && r.dns.Some? && r.lease.Some?
    ensures var o := Run(c, Some(rx));
      && o.result == IpAssign && o.sent == [] && o.client.leaseTime == r.lease.value && o.client.tick == 0
      && GetInfo(o.client) == Some(Info(r.yiaddr, r.gateway.value, r.subnet.value, r.dns.value, r.lease.value))
  {
    hide ReplyOf;
  }

  lemma AckIsEncoded(h: seq<byte>, m: seq<byte>, g: seq<byte>, d: seq<byte>, t: seq<byte>)
    requires |m| == |g| == |d| == |t| == 4
    ensures var os := [Tlv(53, [5]), Tlv(1, m), Tlv(3, g), Tlv(6, d), Tlv(51, t)];
      AllPlain(os) && AckBytes(h, m, g, d, t) == h + Encode(os) + [255] + []
  {
    hide Encode;
    FiveEncoded(Tlv(53, [5]), Tlv(1, m), Tlv(3, g), Tlv(6, d), Tlv(51, t));
  }

  lemma FiveEncoded(a: Tlv, b: Tlv, c: Tlv, d: Tlv, e: Tlv)
    requires Plain(a) && Plain(b) && Plain(c) && Plain(d) && Plain(e)
    ensures AllPlain([a, b, c, d, e])
    ensures Encode([a, b, c, d, e]) == EncodeOne(a) + EncodeOne(b) + EncodeOne(c) + EncodeOne(d) + EncodeOne(e)
  {
    hide EncodeOne, Plain;
    assert [a, b, c, d, e] == [a, b, c, d] + [e] && [a, b, c, d] == [a, b, c] + [d] && [a, b, c] == [a, b] + [c]
           && [a, b] == [a] + [b] && [a] == [] + [a];
    EncodeAppend([], a);
    EncodeAppend([a], b);
    EncodeAppend([a, b], c);
    EncodeAppend([a, b, c], d);
    EncodeAppend([a, b, c, d], e);
    assert [] + EncodeOne(a) == EncodeOne(a);
  }

  lemma FieldsOfAck(m: seq<byte>, g: seq<byte>, d: seq<byte>, t: seq<byte>)
    requires |m| == |g| == |d| == |t| == 4
    ensures var os := [Tlv(53, [5]), Tlv(1, m), Tlv(3, g), Tlv(6, d), Tlv(51, t)];
      && LastOf(os, 53, 1) == Some([5]) && LastOf(os, 1, 4) == Some(m) && LastOf(os, 3, 4) == Some(g)
      && LastOf(os, 6, 4) == Some(d) && LastOf(os, 51, 4) == Some(t)
  {
    var os := [Tlv(53, [5]), Tlv(1, m), Tlv(3, g), Tlv(6, d), Tlv(51, t)];
    LastOfMeansIff(os, 53, 1, [5]);
    LastOfMeansIff(os, 1, 4, m);
    LastOfMeansIff(os, 3, 4, g);
    LastOfMeansIff(os, 6, 4, d);
    LastOfMeansIff(os, 51, 4, t);
    hide LastOf;
    assert os[0] == Tlv(53, [5]) && os[1] == Tlv(1, m) && os[2] == Tlv(3, g) && os[3] == Tlv(6, d)
           && os[4] == Tlv(51, t);
  }

  // ---------- the object ----------

  predicate FitForOptions(c: Client) {
    |c.serverIp| == 4 && |c.requestedIp| == 4
  }

  /** The bytes of a message. */
  ghost function Bytes(s: Sent, mac: seq<byte>): seq<byte>
    requires |mac| == 6 && AllPlain([Tlv(OPT_MSG_TYPE, [s.msgType])] + s.os)
  {
    Header(s.xid, None, mac) + Encode([Tlv(OPT_MSG_TYPE, [s.msgType])] + s.os) + [OPT_END]
  }

  lemma SentIsPlain(c: Client)
    requires FitForOptions(c)
    ensures AllPlain([Tlv(OPT_MSG_TYPE, [DISCOVER])] + Discover(c).os)
    ensures AllPlain([Tlv(OPT_MSG_TYPE, [REQUEST])] + Request(c).os)
  {
  }

  lemma {:induction false} EncodedOneByOne(os: seq<Tlv>, o: Tlv)
    requires AllPlain(os + [o])
    ensures AllPlain(os) && Plain(o) && Encode(os + [o]) == Encode(os) + EncodeOne(o)
  {
    forall i | 0 <= i < |os| ensures Plain(os[i]) {
      assert (os + [o])[i] == os[i];
    }
    assert (os + [o])[|os|] == o;
    EncodeAppend(os, o);
  }

  /**
   * The messages byte by byte behind their headers: the type, the four parameters asked for and the host name "w5500"
   * with its terminator.
   */
  lemma DiscoverByNumber(c: Client, mac: seq<byte>)
    requires |mac| == 6 && FitForOptions(c)
    ensures AllPlain([Tlv(OPT_MSG_TYPE, [DISCOVER])] + Discover(c).os)
    ensures Bytes(Discover(c), mac) ==
            Header(c.xid, None, mac) + [53, 1, 1, 55, 4, 1, 3, 6, 51, 12, 6, 119, 53, 53, 48, 48, 0, 255]
  {
    hide Header, Encode, Bytes;
    DiscoverBytes(c, mac);
  }

  /** In a REQUEST also the address, and the server it is for. */
  lemma RequestByNumber(c: Client, mac: seq<byte>)
    requires |mac| == 6 && FitForOptions(c)
    ensures AllPlain([Tlv(OPT_MSG_TYPE, [REQUEST])] + Request(c).os)
    ensures Bytes(Request(c), mac) ==
            Header(c.xid, None, mac) + [53, 1, 3, 50, 4] + c.requestedIp + [54, 4] + c.serverIp
            + [55, 4, 1, 3, 6, 51, 12, 6, 119, 53, 53, 48, 48, 0, 255]
  {
    hide Header, Encode, Bytes;
    RequestBytes(c, mac);
  }

  class Dhcp {
    const mac: seq<byte>
    const buf: array<byte>
    var state: State
    var retryCount: nat
    var tick: word
    var leaseTime: word
    var xid: word
    var serverIp: seq<byte>
    var requestedIp: seq<byte>
    var info: Info
    /** How often the callbacks for an assigned address and for a conflict have been called. */
    var assignCalls: nat
    var conflictCalls: nat
    /** The datagrams handed to the socket. */
    ghost var wire: seq<seq<byte>>

    ghost predicate Valid()
      reads this
    {
      |mac| == 6 && buf.Length == REPLY_BUFFER_SIZE && FitForOptions(View())
    }

    ghost function View(): Client
      reads this
    {
      Client(state, retryCount, tick, leaseTime, xid, serverIp, requestedIp, info)
    }

    constructor (m: seq<byte>)
      requires |m| == 6
      ensures Valid() && fresh(buf) && View() == Initial(m) && mac == m && wire == []
      ensures state == Idle && retryCount == tick == leaseTime == 0 && assignCalls == conflictCalls == 0
      ensures xid == 16777216 * m[2] as int + 65536 * m[3] as int + 256 * m[4] as int + m[5] as int
      ensures serverIp == requestedIp == info.ip == info.gw == info.subnet == info.dns == [0, 0, 0, 0]
      ensures info.lease == 0
    {
      mac := m;
      buf := new byte[REPLY_BUFFER_SIZE];
      state, retryCount, tick, leaseTime, xid := Idle, 0, 0, 0, BE32(m, 2);
      serverIp, requestedIp := Zero4(), Zero4();
      info := Info(Zero4(), Zero4(), Zero4(), Zero4(), 0);
      assignCalls, conflictCalls := 0, 0;
      wire := [];
    }

    method SendDiscover()
      requires Valid()
      modifies this`wire, buf
      ensures Valid()
      ensures AllPlain([Tlv(OPT_MSG_TYPE, [DISCOVER])] + Discover(View()).os)
      ensures wire == old(wire) + [Bytes(Discover(View()), mac)]
    {
      hide Header, Encode, EncodeOne;
      SentIsPlain(View());
      var off := BuildHeader(buf, DISCOVER, xid, None, mac);
      off := AddOption(buf, off, PARAMETERS);
      off := AddOption(buf, off, HOST_NAME);
      off := FinishOptions(buf, off);
      DiscoverBytes(View(), mac);
      wire := wire + [buf[..off]];
    }

    method SendReq()
      requires Valid()
      modifies this`wire, buf
      ensures Valid()
      ensures AllPlain([Tlv(OPT_MSG_TYPE, [REQUEST])] + Request(View()).os)
      ensures wire == old(wire) + [Bytes(Request(View()), mac)]
    {
      hide Header, Encode, EncodeOne;
      SentIsPlain(View());
      var off := BuildHeader(buf, REQUEST, xid, None, mac);
      off := AddOption(buf, off, Tlv(OPT_REQUESTED_IP, requestedIp));
      off := AddOption(buf, off, Tlv(OPT_SERVER_ID, serverIp));
      off := AddOption(buf, off, PARAMETERS);
      off := AddOption(buf, off, HOST_NAME);
      off := FinishOptions(buf, off);
      RequestBytes(View(), mac);
      wire := wire + [buf[..off]];
    }

    /** The messages of one call, as they went to the socket. */
    ghost predicate WentOut(before: seq<seq<byte>>, sent: seq<Sent>)
      requires |mac| == 6
      reads this`wire
    {
      if sent == [] then wire == before
      else |sent| == 1 && AllPlain([Tlv(OPT_MSG_TYPE, [sent[0].msgType])] + sent[0].os)
           && wire == before + [Bytes(sent[0], mac)]
    }

    /** The datagrams of one call: none, or the bytes of the one message. */
    lemma WentOutMeans(before: seq<seq<byte>>, sent: seq<Sent>)
      requires |mac| == 6 && WentOut(before, sent)
      ensures sent == [] ==> wire == before
      ensures sent != [] ==>
        |sent| == 1 && AllPlain([Tlv(53, [sent[0].msgType])] + sent[0].os)
        && wire == before + [Bytes(sent[0], mac)]
    {
    }

    method Retry() returns (result: Result)
      requires Valid() && (state == Discovering || state == Requesting)
      modifies this, buf
      ensures Valid()
      ensures View() == TimedOut(old(View())).client && result == TimedOut(old(View())).result
      ensures WentOut(old(wire), TimedOut(old(View())).sent)
      ensures unchanged(`assignCalls) && unchanged(`conflictCalls)
    {
      retryCount := retryCount + 1;
      if retryCount >= MAX_RETRY {
        state := Idle;
        return Failed;
      }
      state := Discovering;
      tick := 0;
      xid := NextXid(xid);
      SendDiscover();
      return Running;
    }

    /** A datagram from the socket into the buffer. */
    method Receive(data: seq<byte>)
      requires Valid() && |data| <= REPLY_BUFFER_SIZE
      modifies buf
      ensures buf[..|data|] == data
    {
      forall k | 0 <= k < |data| {
        buf[k] := data[k];
      }
    }

    /** One call of `DHCP_run`: the object does what the state machine says. */
    method DhcpRun(rx: Option<seq<byte>>) returns (result: Result)
      requires Valid() && (rx.Some? ==> |rx.value| <= REPLY_BUFFER_SIZE)
      modifies this, buf
      ensures Valid()
      ensures View() == Run(old(View()), rx).client && result == Run(old(View()), rx).result
      ensures WentOut(old(wire), Run(old(View()), rx).sent)
      ensures assignCalls == old(assignCalls) + if result == IpAssign then 1 else 0
      ensures conflictCalls == old(conflictCalls) + if TakesNak(old(View()), rx) then 1 else 0
    {
      hide FieldsOf, Acceptable, Bytes;
      match state {
        case Idle =>
          state := Discovering;
          retryCount := 0;
          tick := 0;
          xid := NextXid(xid);
          SendDiscover();
          return Running;
        case Discovering =>
          if tick >= WAIT_TIME {
            result := Retry();
            return;
          }
          result := AwaitOffer(rx);
        case Requesting =>
          if tick >= WAIT_TIME {
            result := Retry();
            return;
          }
          result := AwaitAck(rx);
        case Bound =>
          if leaseTime > 0 && tick >= leaseTime / 2 {
            state := Requesting;
            tick := 0;
            SendReq();
            return Running;
          }
          return IpLeased;
      }
    }

    method AwaitOffer(rx: Option<seq<byte>>) returns (result: Result)
      requires Valid() && state == Discovering && tick < WAIT_TIME && (rx.Some? ==> |rx.value| <= REPLY_BUFFER_SIZE)
      modifies this, buf
      ensures Valid()
      ensures View() == Run(old(View()), rx).client && result == Run(old(View()), rx).result
      ensures WentOut(old(wire), Run(old(View()), rx).sent)
      ensures unchanged(`assignCalls) && unchanged(`conflictCalls)
    {
      hide FieldsOf, Acceptable, Bytes;
      if rx.None? {
        return Running;
      }
      Receive(rx.value);
      var valid, headerOk, r := ParseReply(buf, |rx.value|, xid);
      ReplyIsFourBytes(rx.value, xid);
      if headerOk {
        requestedIp := r.yiaddr;
        serverIp := Or(r.serverIp, serverIp);
      }
      if valid && r.msgType == Some(OFFER) {
        state := Requesting;
        tick := 0;
        SendReq();
      }
      return Running;
    }

    method AwaitAck(rx: Option<seq<byte>>) returns (result: Result)
      requires Valid() && state == Requesting && tick < WAIT_TIME && (rx.Some? ==> |rx.value| <= REPLY_BUFFER_SIZE)
      modifies this, buf
      ensures Valid()
      ensures View() == Run(old(View()), rx).client && result == Run(old(View()), rx).result
      ensures WentOut(old(wire), Run(old(View()), rx).sent)
      ensures assignCalls == old(assignCalls) + if result == IpAssign then 1 else 0
      ensures conflictCalls == old(conflictCalls) + if TakesNak(old(View()), rx) then 1 else 0
    {
      hide FieldsOf, Acceptable, Bytes, ReplyOf, WentOut, Restarted;
      if rx.None? {
        NothingWentOut();
        return Running;
      }
      Receive(rx.value);
      var valid, headerOk, r := ParseReply(buf, |rx.value|, xid);
      ReplyIsFourBytes(rx.value, xid);
      ParsedIff(rx.value, xid);
      if headerOk {
        info := Info(r.yiaddr, Or(r.gateway, info.gw), Or(r.subnet, info.subnet), Or(r.dns, info.dns),
                     Or(r.lease, info.lease));
        serverIp := Or(r.serverIp, serverIp);
      }
      NothingWentOut();
      if valid {
        if r.msgType == Some(ACK) {
          Bind();
          return IpAssign;
        } else if r.msgType == Some(NAK) {
          conflictCalls := conflictCalls + 1;
          StartAgain();
          return Running;
        }
      }
      return Running;
    }

    lemma NothingWentOut()
      requires |mac| == 6
      ensures WentOut(wire, [])
    {
    }

    /** The lease is taken, and the callback called. */
    method Bind()
      modifies this`leaseTime, this`state, this`tick, this`assignCalls
      ensures View() == old(View()).(state := Bound, leaseTime := info.lease, tick := 0)
      ensures assignCalls == old(assignCalls) + 1
    {
      leaseTime := info.lease;
      state := Bound;
      tick := 0;
      assignCalls := assignCalls + 1;
    }

    /** After a NAK: from DISCOVER again. */
    method StartAgain()
      requires Valid()
      modifies this`state, this`tick, this`xid, this`wire, buf
      ensures Valid() && View() == Restarted(old(View())).client
      ensures Restarted(old(View())).result == Running && WentOut(old(wire), Restarted(old(View())).sent)
    {
      state := Discovering;
      tick := 0;
      xid := NextXid(xid);
      SendDiscover();
    }

    method TimeHandler()
      modifies this`tick
      ensures View() == Ticked(old(View()))
      ensures tick == if old(tick) == 4294967295 then 0 else old(tick) + 1
    {
      tick := (tick + 1) % 0x1_0000_0000;
    }

    method InfoIfBound() returns (i: Option<Info>)
      ensures i == GetInfo(View()) && (state == Bound ==> i == Some(info)) && (state != Bound ==> i == None)
    {
      if state != Bound {
        return None;
      }
      return Some(info);
    }

    method StopClient()
      modifies this`state
      ensures View() == old(View()).(state := Idle)
    {
      state := Idle;
    }
  }

  lemma ParsedIff(msg: seq<byte>, xid: word)
    ensures ReplyOf(msg, xid).Some? <==> Acceptable(msg, xid)
  {
  }

  lemma ReplyIsFourBytes(msg: seq<byte>, xid: word)
    ensures var r := ReplyOf(msg, xid);
      r.Some? ==> |r.value.yiaddr| == 4 && (r.value.serverIp.Some? ==> |r.value.serverIp.value| == 4)
  {
  }

  lemma DiscoverBytes(c: Client, mac: seq<byte>)
    requires |mac| == 6 && FitForOptions(c)
    ensures AllPlain([Tlv(OPT_MSG_TYPE, [DISCOVER])] + Discover(c).os)
    ensures Bytes(Discover(c), mac) ==
            Header(c.xid, None, mac) + EncodeOne(Tlv(OPT_MSG_TYPE, [DISCOVER])) + EncodeOne(PARAMETERS)
            + EncodeOne(HOST_NAME) + [255]
  {
    SentIsPlain(c);
    var first := Tlv(OPT_MSG_TYPE, [DISCOVER]);
    assert [first] + Discover(c).os == [first, PARAMETERS] + [HOST_NAME];
    assert [first, PARAMETERS] == [first] + [PARAMETERS] && [first] == [] + [first];
    EncodedOneByOne([first, PARAMETERS], HOST_NAME);
    EncodedOneByOne([first], PARAMETERS);
    EncodedOneByOne([], first);
    hide EncodeOne, Header;
    assert Encode([]) + EncodeOne(first) == EncodeOne(first);
  }

  lemma RequestBytes(c: Client, mac: seq<byte>)
    requires |mac| == 6 && FitForOptions(c)
    ensures AllPlain([Tlv(OPT_MSG_TYPE, [REQUEST])] + Request(c).os)
    ensures Bytes(Request(c), mac) ==
            Header(c.xid, None, mac) + EncodeOne(Tlv(OPT_MSG_TYPE, [REQUEST]))
            + EncodeOne(Tlv(OPT_REQUESTED_IP, c.requestedIp))
            + EncodeOne(Tlv(OPT_SERVER_ID, c.serverIp)) + EncodeOne(PARAMETERS) + EncodeOne(HOST_NAME) + [255]
  {
    hide Encode, Header;
    SentIsPlain(c);
    var a, b, d := Tlv(OPT_MSG_TYPE, [REQUEST]), Tlv(OPT_REQUESTED_IP, c.requestedIp), Tlv(OPT_SERVER_ID, c.serverIp);
    assert [a] + Request(c).os == [a, b, d, PARAMETERS, HOST_NAME];
    FiveEncoded(a, b, d, PARAMETERS, HOST_NAME);
    hide EncodeOne;
  }
}
