/** DHCP messages: the encoder that builds them in a buffer, and the parser that walks their options. */
module DhcpCodec {
  import opened Common

  const OPTIONS_OFFSET := 240
  const MAGIC_OFFSET := 236
  const XID_OFFSET := 4
  const CIADDR_OFFSET := 12
  const YIADDR_OFFSET := 16
  const CHADDR_OFFSET := 28

  const OPT_SUBNET_MASK: byte := 1
  const OPT_ROUTER: byte := 3
  const OPT_DNS: byte := 6
  const OPT_HOST_NAME: byte := 12
  const OPT_REQUESTED_IP: byte := 50
  const OPT_LEASE_TIME: byte := 51
  const OPT_MSG_TYPE: byte := 53
  const OPT_SERVER_ID: byte := 54
  const OPT_PARAM_REQ: byte := 55
  const OPT_END: byte := 255

  // ---------- options as tag, length, value ----------

  datatype Tlv = Tlv(tag: byte, data: seq<byte>)

  /** A tag that carries a length: neither PAD nor END. */
  predicate Plain(o: Tlv) {
    o.tag != 0 && o.tag != OPT_END && |o.data| <= 255
  }

  /** The options of section 2 of RFC 2132: PAD is skipped; END, or an option cut short, ends the list. */
  function Decode(b: seq<byte>): seq<Tlv>
    decreases |b|
  {
    if b == [] || b[0] == OPT_END then []
    else if b[0] == 0 then Decode(b[1..])
    else if |b| < 2 || 2 + b[1] > |b| then []
    else [Tlv(b[0], b[2..2 + b[1]])] + Decode(b[2 + b[1]..])
  }

  function EncodeOne(o: Tlv): (r: seq<byte>)
    requires Plain(o)
    ensures |r| == 2 + |o.data| && r[0] == o.tag && r[1] == |o.data| && r[2..] == o.data
  {
    [o.tag, |o.data|] + o.data
  }

  ghost predicate AllPlain(os: seq<Tlv>) {
    forall i :: 0 <= i < |os| ==> Plain(os[i])
  }

  ghost function Encode(os: seq<Tlv>): seq<byte>
    requires AllPlain(os)
  {
    if os == [] then [] else EncodeOne(os[0]) + Encode(os[1..])
  }

  lemma DecodeOne(o: Tlv, rest: seq<byte>)
    requires Plain(o)
    ensures Decode(EncodeOne(o) + rest) == [o] + Decode(rest)
  {
    var b := EncodeOne(o) + rest;
    assert b[0] == o.tag && b[1] == |o.data|;
    assert b[2..2 + |o.data|] == o.data;
    assert b[2 + |o.data|..] == rest;
  }

  lemma Regroup(a: seq<byte>, b: seq<byte>, c: seq<byte>, d: seq<byte>)
    ensures a + b + c + d == a + (b + c + d)
  {
  }

  /** Decoding an encoded list gives the list, whatever follows its END. */
  lemma {:induction false} OptionsRoundTrip(os: seq<Tlv>, junk: seq<byte>)
    requires AllPlain(os)
    ensures Decode(Encode(os) + [255] + junk) == os
  {
    hide Decode, EncodeOne, Encode;
    if os != [] {
      var rest := Encode(os[1..]) + [OPT_END] + junk;
      OptionsRoundTrip(os[1..], junk);
      DecodeOne(os[0], rest);
      EncodeStep(os);
      Regroup(EncodeOne(os[0]), Encode(os[1..]), [OPT_END], junk);
      assert [os[0]] + os[1..] == os;
    } else {
      DecodeEnd(junk);
    }
  }

  lemma EncodeStep(os: seq<Tlv>)
    requires AllPlain(os) && os != []
    ensures Plain(os[0]) && AllPlain(os[1..]) && Encode(os) == EncodeOne(os[0]) + Encode(os[1..])
  {
  }

  lemma DecodeEnd(junk: seq<byte>)
    ensures Decode(Encode([]) + [OPT_END] + junk) == []
  {
    assert (Encode([]) + [OPT_END] + junk)[0] == OPT_END;
  }

  lemma {:induction false} EncodeAppend(os: seq<Tlv>, o: Tlv)
    requires AllPlain(os) && Plain(o)
    ensures AllPlain(os + [o])
    ensures Encode(os + [o]) == Encode(os) + EncodeOne(o)
  {
    var all := os + [o];
    hide EncodeOne, Plain;
    if os != [] {
      assert all[1..] == os[1..] + [o];
      EncodeAppend(os[1..], o);
      assert Encode(all) == EncodeOne(os[0]) + Encode(all[1..]);
    } else {
      assert all[1..] == [];
    }
  }

  /** The value of the last option with this tag that is long enough: later ones override earlier ones. */
  function LastOf(os: seq<Tlv>, tag: byte, least: nat): (r: Option<seq<byte>>)
    ensures r.Some? ==> |r.value| >= least
  {
    if os == [] then None
    else
      var o := os[|os| - 1];
      if o.tag == tag && |o.data| >= least then Some(o.data) else LastOf(os[..|os| - 1], tag, least)
  }

  /** `LastOf` finds the value of an option with this tag behind which no other one is long enough. */
  lemma {:induction false} LastOfMeansIff(os: seq<Tlv>, tag: byte, least: nat, v: seq<byte>)
    ensures LastOf(os, tag, least) == Some(v) <==>
            exists i :: && 0 <= i < |os| && os[i] == Tlv(tag, v) && |v| >= least
                        && forall j :: i < j < |os| ==> os[j].tag != tag || |os[j].data| < least
  {
    if os != [] {
      var n := |os| - 1;
      LastOfMeansIff(os[..n], tag, least, v);
      assert forall i :: 0 <= i < n ==> os[..n][i] == os[i];
      if os[n].tag == tag && |os[n].data| >= least {
        assert os[n] == Tlv(tag, os[n].data);
      } else if LastOf(os[..n], tag, least) == Some(v) {
        var i :| && 0 <= i < n && os[..n][i] == Tlv(tag, v) && |v| >= least
                 && forall j :: i < j < n ==> os[..n][j].tag != tag || |os[..n][j].data| < least;
        assert os[i] == Tlv(tag, v);
        assert forall j :: i < j < |os| ==> j == n || os[j] == os[..n][j];
      }
    }
  }

  lemma LastOfAppend(os: seq<Tlv>, o: Tlv, tag: byte, least: nat)
    ensures LastOf(os + [o], tag, least) ==
            if o.tag == tag && |o.data| >= least then Some(o.data) else LastOf(os, tag, least)
  {
    assert (os + [o])[..|os|] == os;
  }

  // ---------- replies ----------

  function BE32(b: seq<byte>, off: nat): word
    requires off + 4 <= |b|
  {
    0x1_0000 * (0x100 * b[off] as int + b[off + 1] as int) + (0x100 * b[off + 2] as int + b[off + 3] as int)
  }

  function ToBE32(x: word): (b: seq<byte>)
    ensures |b| == 4 && BE32(b, 0) == x
  {
    var high, low := x / 0x1_0000, x % 0x1_0000;
    [high / 0x100, high % 0x100, low / 0x100, low % 0x100]
  }

  /** What the parser writes through its out-parameters; a field stays as it was when the message does not have it. */
  datatype Reply = Reply(msgType: Option<byte>, yiaddr: seq<byte>, serverIp: Option<seq<byte>>,
                         subnet: Option<seq<byte>>, gateway: Option<seq<byte>>, dns: Option<seq<byte>>,
                         lease: Option<word>)

  predicate Acceptable(msg: seq<byte>, xid: word) {
    && |msg| >= OPTIONS_OFFSET
    && msg[MAGIC_OFFSET..OPTIONS_OFFSET] == [0x63, 0x82, 0x53, 0x63]
    && BE32(msg, XID_OFFSET) == xid
  }

  function First4(o: Option<seq<byte>>): (r: Option<seq<byte>>)
    requires o.Some? ==> |o.value| >= 4
  {
    match o case None => None case Some(v) => Some(v[..4])
  }

  function FieldsOf(os: seq<Tlv>, yiaddr: seq<byte>): Reply {
    Reply(match LastOf(os, OPT_MSG_TYPE, 1) case None => None case Some(v) => Some(v[0]),
          yiaddr,
          First4(LastOf(os, OPT_SERVER_ID, 4)),
          First4(LastOf(os, OPT_SUBNET_MASK, 4)),
          First4(LastOf(os, OPT_ROUTER, 4)),
          First4(LastOf(os, OPT_DNS, 4)),
          match LastOf(os, OPT_LEASE_TIME, 4) case None => None case Some(v) => Some(BE32(v, 0)))
  }

  /** Which option gives which field, by number: the first four bytes of its value, and the lease as a number. */
  lemma FieldsByNumber(os: seq<Tlv>, yiaddr: seq<byte>)
    ensures var r := FieldsOf(os, yiaddr);
      && r.yiaddr == yiaddr
      && (match LastOf(os, 53, 1) case None => r.msgType == None case Some(v) => r.msgType == Some(v[0]))
      && (match LastOf(os, 54, 4) case None => r.serverIp == None case Some(v) => r.serverIp == Some(v[..4]))
      && (match LastOf(os, 1, 4) case None => r.subnet == None case Some(v) => r.subnet == Some(v[..4]))
      && (match LastOf(os, 3, 4) case None => r.gateway == None case Some(v) => r.gateway == Some(v[..4]))
      && (match LastOf(os, 6, 4) case None => r.dns == None case Some(v) => r.dns == Some(v[..4]))
      && (match LastOf(os, 51, 4)
          case None => r.lease == None
          case Some(v) =>
            r.lease == Some(16777216 * v[0] as int + 65536 * v[1] as int + 256 * v[2] as int + v[3] as int))
  {
  }

  /** A message is looked at if it has 240 bytes, the cookie, and the transaction id, high byte first. */
  lemma AcceptableByNumber(msg: seq<byte>, xid: word)
    ensures Acceptable(msg, xid) <==>
            && |msg| >= 240 && msg[236..240] == [99, 130, 83, 99]
            && xid == 16777216 * msg[4] as int + 65536 * msg[5] as int + 256 * msg[6] as int + msg[7] as int
    ensures Acceptable(msg, xid) ==> ReplyOf(msg, xid) == Some(FieldsOf(Decode(msg[240..]), msg[16..20]))
    ensures !Acceptable(msg, xid) ==> ReplyOf(msg, xid) == None
  {
  }

  /** What a message says, if its cookie and transaction id are right. */
  function ReplyOf(msg: seq<byte>, xid: word): Option<Reply> {
    if !Acceptable(msg, xid) then None
    else Some(FieldsOf(Decode(msg[OPTIONS_OFFSET..]), msg[YIADDR_OFFSET..YIADDR_OFFSET + 4]))
  }

  /** One option of the walk: writes the field it carries, if it is long enough. */
  method TakeOption(r: Reply, buf: array<byte>, tag: byte, off: nat, optLen: nat, ghost done: seq<Tlv>)
    returns (q: Reply)
    requires off + optLen <= buf.Length && r == FieldsOf(done, r.yiaddr)
    ensures q == FieldsOf(done + [Tlv(tag, buf[off..off + optLen])], r.yiaddr) && q.yiaddr == r.yiaddr
  {
    ghost var o := Tlv(tag, buf[off..off + optLen]);
    LastOfAppend(done, o, OPT_MSG_TYPE, 1);
    LastOfAppend(done, o, OPT_SERVER_ID, 4);
    LastOfAppend(done, o, OPT_SUBNET_MASK, 4);
    LastOfAppend(done, o, OPT_ROUTER, 4);
    LastOfAppend(done, o, OPT_DNS, 4);
    LastOfAppend(done, o, OPT_LEASE_TIME, 4);
    q := r;
    if tag == OPT_MSG_TYPE {
      if optLen >= 1 {
        q := r.(msgType := Some(buf[off]));
      }
    } else if optLen >= 4 {
      assert buf[off..off + optLen][..4] == buf[off..off + 4];
      var four := buf[off..off + 4];
      if tag == OPT_SERVER_ID {
        q := r.(serverIp := Some(four));
      } else if tag == OPT_SUBNET_MASK {
        q := r.(subnet := Some(four));
      } else if tag == OPT_ROUTER {
        q := r.(gateway := Some(four));
      } else if tag == OPT_DNS {
        q := r.(dns := Some(four));
      } else if tag == OPT_LEASE_TIME {
        q := r.(lease := Some(BE32(four, 0)));
      }
    }
  }

  lemma NoFields(yiaddr: seq<byte>)
    ensures FieldsOf([], yiaddr) == Reply(None, yiaddr, None, None, None, None, None)
  {
  }

  lemma DecodeStops(b: seq<byte>, off: nat)
    requires off <= |b| && (off < |b| ==> b[off] == 255)
    ensures Decode(b[off..]) == []
  {
  }

  lemma DecodeSkip(b: seq<byte>, off: nat)
    requires off < |b| && b[off] != 255
    ensures b[off] == 0 ==> Decode(b[off..]) == Decode(b[off + 1..])
    ensures b[off] != 0 && (off + 1 == |b| || off + 2 + b[off + 1] > |b|) ==> Decode(b[off..]) == []
    ensures b[off] != 0 && off + 1 < |b| && off + 2 + b[off + 1] <= |b| ==>
              Decode(b[off..]) == [Tlv(b[off], b[off + 2..off + 2 + b[off + 1]])] + Decode(b[off + 2 + b[off + 1]..])
  {
    var t := b[off..];
    assert t[1..] == b[off + 1..];
    if b[off] != 0 && off + 1 < |b| && off + 2 + b[off + 1] <= |b| {
      assert t[1] == b[off + 1];
      assert t[2..2 + t[1]] == b[off + 2..off + 2 + b[off + 1]];
      assert t[2 + t[1]..] == b[off + 2 + b[off + 1]..];
    }
  }

  /**
   * The walk over the first `len` bytes of the buffer. `headerOk` tells whether anything was written to `r`, and the
   * result is true exactly if a message type was found.
   */
  method ParseReply(buf: array<byte>, len: nat, xid: word) returns (valid: bool, headerOk: bool, r: Reply)
    requires len <= buf.Length
    ensures headerOk <==> Acceptable(buf[..len], xid)
    ensures headerOk ==> ReplyOf(buf[..len], xid) == Some(r)
    ensures valid <==> headerOk && r.msgType.Some?
  {
    ghost var msg := buf[..len];
    r := Reply(None, [], None, None, None, None, None);
    if len < OPTIONS_OFFSET {
      return false, false, r;
    }
    assert msg[MAGIC_OFFSET..OPTIONS_OFFSET] == buf[MAGIC_OFFSET..OPTIONS_OFFSET];
    if buf[MAGIC_OFFSET..OPTIONS_OFFSET] != [0x63, 0x82, 0x53, 0x63] {
      return false, false, r;
    }
    if BE32(buf[..len], XID_OFFSET) != xid {
      return false, false, r;
    }
    r := r.(yiaddr := buf[YIADDR_OFFSET..YIADDR_OFFSET + 4]);
    assert msg[YIADDR_OFFSET..YIADDR_OFFSET + 4] == r.yiaddr;
    r := WalkOptions(buf, len, r.yiaddr);
    return r.msgType.Some?, true, r;
  }

  lemma PrefixSlice(b: seq<byte>, len: nat, i: nat, j: nat)
    requires i <= j <= len <= |b|
    ensures b[..len][i..j] == b[i..j]
  {
  }

  /** What has been decoded of the options of `msg`, with what is left from `off` on, is all there is. */
  ghost predicate Walked(msg: seq<byte>, off: nat, done: seq<Tlv>) {
    OPTIONS_OFFSET <= off <= |msg| && Decode(msg[OPTIONS_OFFSET..]) == done + Decode(msg[off..])
  }

  lemma WalkBegins(msg: seq<byte>)
    requires OPTIONS_OFFSET <= |msg|
    ensures Walked(msg, OPTIONS_OFFSET, [])
  {
  }

  lemma WalkStep(msg: seq<byte>, off: nat, done: seq<Tlv>)
    requires Walked(msg, off, done)
    ensures off == |msg| || msg[off] == 255 ==> Decode(msg[OPTIONS_OFFSET..]) == done
    ensures off < |msg| && msg[off] == 0 ==> Walked(msg, off + 1, done)
    ensures off < |msg| && msg[off] != 255 && msg[off] != 0 ==>
      if off + 1 == |msg| || off + 2 + msg[off + 1] > |msg| then Decode(msg[OPTIONS_OFFSET..]) == done
      else Walked(msg, off + 2 + msg[off + 1], done + [Tlv(msg[off], msg[off + 2..off + 2 + msg[off + 1]])])
  {
    hide Decode;
    assert done + [] == done;
    if off == |msg| || msg[off] == 255 {
      DecodeStops(msg, off);
    } else {
      DecodeSkip(msg, off);
      if msg[off] != 0 && off + 1 < |msg| && off + 2 + msg[off + 1] <= |msg| {
        var o := Tlv(msg[off], msg[off + 2..off + 2 + msg[off + 1]]);
        assert done + ([o] + Decode(msg[off + 2 + msg[off + 1]..])) == done + [o] + Decode(msg[off + 2 + msg[off
               + 1]..]);
      }
    }
  }

  method WalkOptions(buf: array<byte>, len: nat, yiaddr: seq<byte>) returns (r: Reply)
    requires OPTIONS_OFFSET <= len <= buf.Length
    ensures r == FieldsOf(Decode(buf[..len][OPTIONS_OFFSET..]), yiaddr)
  {
    hide Decode, LastOf, FieldsOf, Walked;
    ghost var msg := buf[..len];
    r := Reply(None, yiaddr, None, None, None, None, None);
    var off := OPTIONS_OFFSET;
    ghost var done: seq<Tlv> := [];
    NoFields(yiaddr);
    WalkBegins(msg);
    while off < len
      invariant OPTIONS_OFFSET <= off <= len
      invariant r == FieldsOf(done, yiaddr) && r.yiaddr == yiaddr && Walked(msg, off, done)
      decreases len - off
    {
      WalkStep(msg, off, done);
      var tag := buf[off];
      if tag == OPT_END {
        return;
      }
      off := off + 1;
      if tag == 0 {
        continue;
      }
      // the length byte of a lone last tag lies behind the message; whatever it is, the option is cut short
      var optLen := if off < len then buf[off] else 0;
      off := off + 1;
      if off + optLen > len {
        return;
      }
      r := TakeOption(r, buf, tag, off, optLen, done);
      assert buf[off..off + optLen] == msg[off..off + optLen] by {
        PrefixSlice(buf[..], len, off, off + optLen);
      }
      done := done + [Tlv(tag, buf[off..off + optLen])];
      off := off + optLen;
    }
    WalkStep(msg, off, done);
  }

  // ---------- messages ----------

  /** The fixed part of a request, byte by byte. */
  function HeaderByte(k: nat, xid: word, ciaddr: Option<seq<byte>>, mac: seq<byte>): byte
    requires k < OPTIONS_OFFSET && |mac| == 6 && (ciaddr.Some? ==> |ciaddr.value| == 4)
  {
    if k == 0 || k == 1 then 1
    else if k == 2 then 6
    else if XID_OFFSET <= k < XID_OFFSET + 4 then ToBE32(xid)[k - XID_OFFSET]
    else if CIADDR_OFFSET <= k < CIADDR_OFFSET + 4 && ciaddr.Some? then ciaddr.value[k - CIADDR_OFFSET]
    else if CHADDR_OFFSET <= k < CHADDR_OFFSET + 6 then mac[k - CHADDR_OFFSET]
    else if k == 236 then 0x63
    else if k == 237 then 0x82
    else if k == 238 then 0x53
    else if k == 239 then 0x63
    else 0
  }

  function Header(xid: word, ciaddr: Option<seq<byte>>, mac: seq<byte>): (h: seq<byte>)
    requires |mac| == 6 && (ciaddr.Some? ==> |ciaddr.value| == 4)
    ensures |h| == OPTIONS_OFFSET
  {
    seq(OPTIONS_OFFSET, k requires 0 <= k < OPTIONS_OFFSET => HeaderByte(k, xid, ciaddr, mac))
  }

  function Zeroes(n: nat): seq<byte> {
    seq(n, _ => 0)
  }

  /** The header on numbers: request, Ethernet, six-byte address, no hops; the transaction id; the two addresses. */
  lemma HeaderByNumber(xid: word, ciaddr: seq<byte>, mac: seq<byte>)
    requires |ciaddr| == 4 && |mac| == 6
    ensures var h := Header(xid, Some(ciaddr), mac);
      && h[..4] == [1, 1, 6, 0]
      && h[4..8] == [xid / 16777216, xid / 65536 % 256, xid / 256 % 256, xid % 256]
      && h[8..12] == [0, 0, 0, 0] && h[12..16] == ciaddr && h[16..28] == Zeroes(12)
      && h[28..34] == mac && h[34..236] == Zeroes(202) && h[236..] == [99, 130, 83, 99]
    ensures Header(xid, None, mac) == Header(xid, Some([0, 0, 0, 0]), mac)
  {
    var h := Header(xid, Some(ciaddr), mac);
    assert h[..4] == [h[0], h[1], h[2], h[3]] && h[4..8] == [h[4], h[5], h[6], h[7]];
    XidBytes(xid);
  }

  lemma XidBytes(xid: word)
    ensures ToBE32(xid) == [xid / 16777216, xid / 65536 % 256, xid / 256 % 256, xid % 256]
  {
    var high, low := xid / 65536, xid % 65536;
    FourDigits(high / 256, high % 256, low / 256, low % 256);
  }

  lemma FourDigits(a: byte, b: byte, c: byte, d: byte)
    ensures var x := 16777216 * a + 65536 * b + 256 * c + d;
      x / 16777216 == a && x / 65536 % 256 == b && x / 256 % 256 == c && x % 256 == d
  {
    var x := 16777216 * a + 65536 * b + 256 * c + d;
    assert x / 65536 == 256 * a + b;
    assert x / 256 == 65536 * a + 256 * b + c;
    Quotient(x / 65536, 256, a, b);
    Quotient(x / 256, 256, 256 * a + b, c);
    Quotient(x, 256, 65536 * a + 256 * b + c, d);
  }

  /** Parsing a message with a good header gives, for each field, the last option of the list that carries it. */
  lemma MessageRoundTrip(h: seq<byte>, os: seq<Tlv>, junk: seq<byte>, xid: word)
    requires |h| == OPTIONS_OFFSET && AllPlain(os)
    requires Acceptable(h, xid)
    ensures ReplyOf(h + Encode(os) + [255] + junk, xid) == Some(FieldsOf(os, h[16..20]))
  {
    hide FieldsOf, Decode, Encode;
    var tail := Encode(os) + [OPT_END] + junk;
    var msg := h + Encode(os) + [OPT_END] + junk;
    assert msg == h + tail;
    assert msg[..OPTIONS_OFFSET] == h && msg[OPTIONS_OFFSET..] == tail;
    assert msg[MAGIC_OFFSET..OPTIONS_OFFSET] == h[MAGIC_OFFSET..OPTIONS_OFFSET];
    assert msg[YIADDR_OFFSET..YIADDR_OFFSET + 4] == h[YIADDR_OFFSET..YIADDR_OFFSET + 4];
    OptionsRoundTrip(os, junk);
  }

  lemma OwnHeader(xid: word, ciaddr: Option<seq<byte>>, mac: seq<byte>)
    requires |mac| == 6 && (ciaddr.Some? ==> |ciaddr.value| == 4)
    ensures Acceptable(Header(xid, ciaddr, mac), xid)
    ensures Header(xid, ciaddr, mac)[YIADDR_OFFSET..YIADDR_OFFSET + 4] == [0, 0, 0, 0]
  {
    var h := Header(xid, ciaddr, mac);
    assert h[4] == ToBE32(xid)[0] && h[5] == ToBE32(xid)[1] && h[6] == ToBE32(xid)[2] && h[7] == ToBE32(xid)[3];
    assert h[236] == 0x63 && h[237] == 0x82 && h[238] == 0x53 && h[239] == 0x63;
  }

  /**
   * A message of this client, parsed with its own transaction id, has the
   * type it was built with and the options added to it.
   */
  lemma OwnMessageRoundTrip(xid: word, ciaddr: Option<seq<byte>>, mac: seq<byte>, msgType: byte, os: seq<Tlv>)
    requires |mac| == 6 && (ciaddr.Some? ==> |ciaddr.value| == 4)
    requires AllPlain(os) && forall i :: 0 <= i < |os| ==> os[i].tag != OPT_MSG_TYPE
    ensures AllPlain([Tlv(OPT_MSG_TYPE, [msgType])] + os)
    ensures var all := [Tlv(OPT_MSG_TYPE, [msgType])] + os;
      var r := ReplyOf(Header(xid, ciaddr, mac) + Encode(all) + [OPT_END], xid);
      r == Some(FieldsOf(all, [0, 0, 0, 0])) && r.value.msgType == Some(msgType)
  {
    var all := [Tlv(OPT_MSG_TYPE, [msgType])] + os;
    var h := Header(xid, ciaddr, mac);
    OwnHeader(xid, ciaddr, mac);
    MessageRoundTrip(h, all, [], xid);
    assert h + Encode(all) + [OPT_END] + [] == h + Encode(all) + [OPT_END];
    OnlyTheFirst(os, Tlv(OPT_MSG_TYPE, [msgType]), 1);
  }

  lemma {:induction false} OnlyTheFirst(os: seq<Tlv>, o: Tlv, least: nat)
    requires |o.data| >= least && forall i :: 0 <= i < |os| ==> os[i].tag != o.tag
    ensures LastOf([o] + os, o.tag, least) == Some(o.data)
  {
    if os != [] {
      var n := |os| - 1;
      OnlyTheFirst(os[..n], o, least);
      assert [o] + os == ([o] + os[..n]) + [os[n]];
      LastOfAppend([o] + os[..n], os[n], o.tag, least);
    }
  }

  // ---------- building messages in place ----------

  method BuildHeader(buf: array<byte>, msgType: byte, xid: word, ciaddr: Option<seq<byte>>, mac: seq<byte>)
    returns (off: nat)
    requires buf.Length >= OPTIONS_OFFSET + 3 && |mac| == 6 && (ciaddr.Some? ==> |ciaddr.value| == 4)
    modifies buf
    ensures off == OPTIONS_OFFSET + 3
    ensures buf[..off] == Header(xid, ciaddr, mac) + EncodeOne(Tlv(OPT_MSG_TYPE, [msgType]))
    ensures buf[off..] == old(buf[off..])
  {
    FillHeader(buf, xid, ciaddr, mac);
    ghost var filled := buf[..];
    assert filled[OPTIONS_OFFSET + 3..] == filled[OPTIONS_OFFSET..][3..] == old(buf[OPTIONS_OFFSET + 3..]);
    assert buf[..OPTIONS_OFFSET] == Header(xid, ciaddr, mac);
    off := AddOption(buf, OPTIONS_OFFSET, Tlv(OPT_MSG_TYPE, [msgType]));
  }

  method FillHeader(buf: array<byte>, xid: word, ciaddr: Option<seq<byte>>, mac: seq<byte>)
    requires buf.Length >= OPTIONS_OFFSET && |mac| == 6 && (ciaddr.Some? ==> |ciaddr.value| == 4)
    modifies buf
    ensures forall k :: 0 <= k < OPTIONS_OFFSET ==> buf[k] == HeaderByte(k, xid, ciaddr, mac)
    ensures buf[OPTIONS_OFFSET..] == old(buf[OPTIONS_OFFSET..])
  {
    hide BE32, ToBE32;
    FillFront(buf, xid, ciaddr);
    forall k | 0 <= k < 6 {
      buf[CHADDR_OFFSET + k] := mac[k];
    }
    buf[236], buf[237], buf[238], buf[239] := 0x63, 0x82, 0x53, 0x63;
    forall k | 0 <= k < OPTIONS_OFFSET ensures buf[k] == HeaderByte(k, xid, ciaddr, mac) {
      if k < CIADDR_OFFSET + 4 {
        assert 8 <= k < 12 || k == 0 || k == 1 || k == 2 || k == 3 || k == 4 || k == 5 || k == 6 || k == 7
               || k == 12 || k == 13 || k == 14 || k == 15;
      }
    }
  }

  method Zeroed(buf: array<byte>)
    requires buf.Length >= OPTIONS_OFFSET
    modifies buf
    ensures forall k :: 0 <= k < OPTIONS_OFFSET ==> buf[k] == 0
    ensures buf[OPTIONS_OFFSET..] == old(buf[OPTIONS_OFFSET..])
  {
    forall k | 0 <= k < OPTIONS_OFFSET {
      buf[k] := 0;
    }
  }

  /** The header up to the hardware address, and zeroes behind. */
  method FillFront(buf: array<byte>, xid: word, ciaddr: Option<seq<byte>>)
    requires buf.Length >= OPTIONS_OFFSET && (ciaddr.Some? ==> |ciaddr.value| == 4)
    modifies buf
    ensures buf[0] == 1 && buf[1] == 1 && buf[2] == 6 && buf[3] == 0
    ensures var x := ToBE32(xid); buf[4] == x[0] && buf[5] == x[1] && buf[6] == x[2] && buf[7] == x[3]
    ensures var a := if ciaddr.Some? then ciaddr.value else [0, 0, 0, 0];
      buf[12] == a[0] && buf[13] == a[1] && buf[14] == a[2] && buf[15] == a[3]
    ensures forall k :: 8 <= k < CIADDR_OFFSET || CIADDR_OFFSET + 4 <= k < OPTIONS_OFFSET ==> buf[k] == 0
    ensures buf[OPTIONS_OFFSET..] == old(buf[OPTIONS_OFFSET..])
  {
    hide BE32, ToBE32;
    Zeroed(buf);
    buf[0], buf[1], buf[2], buf[3] := 1, 1, 6, 0;
    var x := ToBE32(xid);
    buf[4], buf[5], buf[6], buf[7] := x[0], x[1], x[2], x[3];
    if ciaddr.Some? {
      buf[12], buf[13], buf[14], buf[15] := ciaddr.value[0], ciaddr.value[1], ciaddr.value[2], ciaddr.value[3];
    }
  }

  method AddOption(buf: array<byte>, off: nat, o: Tlv) returns (next: nat)
    requires Plain(o) && off + 2 + |o.data| <= buf.Length
    modifies buf
    ensures next == off + 2 + |o.data|
    ensures buf[..next] == old(buf[..off]) + EncodeOne(o)
    ensures buf[off] == o.tag && buf[off + 1] == |o.data| && buf[off + 2..next] == o.data
    ensures buf[next..] == old(buf[next..])
  {
    ghost var was := buf[..];
    buf[off], buf[off + 1] := o.tag, |o.data|;
    next := off + 2 + |o.data|;
    forall i | off + 2 <= i < next {
      buf[i] := o.data[i - (off + 2)];
    }
    OptionInPlace(was, buf[..], off, o);
  }

  lemma OptionInPlace(was: seq<byte>, now: seq<byte>, off: nat, o: Tlv)
    requires Plain(o) && off + 2 + |o.data| <= |was| == |now|
    requires forall i :: 0 <= i < |was| ==>
      now[i] == if i < off || i >= off + 2 + |o.data| then was[i]
                else if i == off then o.tag else if i == off + 1 then |o.data| else o.data[i - (off + 2)]
    ensures var next := off + 2 + |o.data|;
      now[..next] == was[..off] + EncodeOne(o) && now[off + 2..next] == o.data && now[next..] == was[next..]
  {
  }

  method FinishOptions(buf: array<byte>, off: nat) returns (next: nat)
    requires off < buf.Length
    modifies buf
    ensures next == off + 1
    ensures buf[..next] == old(buf[..off]) + [255]
    ensures buf[next..] == old(buf[next..])
  {
    buf[off] := OPT_END;
    next := off + 1;
  }
}
