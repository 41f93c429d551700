/** The DHCP client of kernel/net/net.c: option lists (section 2 of RFC 2132), the packets it sends
    and what arriving packets do to it. Packets are byte sequences; integers in them are big-endian. */
module Dhcp {
  import opened Bytes

  const OFFER: int := 2
  const REQUEST: int := 3
  const ACK: int := 5
  const NAK: int := 6
  const XID: nat := 0xB117_7777
  const MAGIC: nat := 0x6382_5363
  const OPTIONS: nat := 240        // offset of the options field
  const PACKET: nat := 552         // sizeof(dhcp_pkt_t)

  /** The client's static variables. */
  datatype Client = Client(
    gotOffer: bool, gotAck: bool, offered: nat, server: nat, gateway: nat, mask: nat, dns: nat)

  function Reset(): Client { Client(false, false, 0, 0, 0, 0, 0) }

  // ---------------------------------------------------------------- option lists

  /** One option as the parser sees it: `value` runs to the end of the options, `len` bytes of it
      belong to the option. */
  function ApplyOption(c: Client, msg: int, tag: byte, len: nat, value: seq<byte>, beyond: byte): (r: (Client, int))
    requires len <= |value|
  {
    if tag == 53 then (c, if value == [] then beyond else value[0])
    else if tag == 1 then (if len == 4 then c.(mask := GetBe32(value)) else c, msg)
    else if tag == 3 then (if len >= 4 then c.(gateway := GetBe32(value)) else c, msg)
    else if tag == 6 then (if len >= 4 then c.(dns := GetBe32(value)) else c, msg)
    else if tag == 54 then (if len == 4 then c.(server := GetBe32(value)) else c, msg)
    else (c, msg)
  }

  /** dhcp_parse_opts from position i on: the client afterwards and the message type, 0 when there is
      none. `beyond` is the byte after the options, which an empty option 53 at the very end reads. */
  function ParseOpts(c: Client, msg: int, opts: seq<byte>, i: nat, beyond: byte): (r: (Client, int))
    requires i <= |opts|
    ensures r.0.gotOffer == c.gotOffer && r.0.gotAck == c.gotAck && r.0.offered == c.offered
    decreases |opts| - i
  {
    if i == |opts| || opts[i] == 255 then (c, msg)
    else if opts[i] == 0 then ParseOpts(c, msg, opts, i + 1, beyond)
    else if i + 1 == |opts| || i + 2 + opts[i + 1] as int > |opts| then (c, msg)
    else
      var len: int := opts[i + 1];
      var (c', msg') := ApplyOption(c, msg, opts[i], len, opts[i + 2..], beyond);
      ParseOpts(c', msg', opts, i + 2 + len, beyond)
  }

  /** An option list: padding, and options with their values. */
  datatype Item =
    | Pad
    | Option(tag: byte, value: seq<byte>)

  predicate WellFormed(items: seq<Item>) {
    forall o | o in items && o.Option? :: o.tag != 0 && o.tag != 255 && |o.value| < 256 && (o.tag == 53 ==> o.value != [])
  }

  function EncodeItem(o: Item): (b: seq<byte>)
    requires o.Option? ==> |o.value| < 256
  {
    match o
    case Pad => [0]
    case Option(tag, value) => [tag, |value|] + value
  }

  function Encode(items: seq<Item>): (b: seq<byte>)
    requires WellFormed(items)
  {
    if items == [] then [] else EncodeItem(items[0]) + Encode(items[1..])
  }

  predicate Carries(o: Item, tag: byte) {
    o.Option? && o.tag == tag && (if tag == 53 then o.value != [] else if tag == 1 || tag == 54 then |o.value| == 4 else |o.value| >= 4)
  }

  /** The last item that carries the tag with an acceptable length; |items| when there is none. */
  function LastWith(items: seq<Item>, tag: byte): (k: nat)
    ensures k <= |items|
    ensures k < |items| ==> Carries(items[k], tag) && forall l | k < l < |items| :: !Carries(items[l], tag)
    ensures k == |items| ==> forall l | 0 <= l < |items| :: !Carries(items[l], tag)
  {
    if items == [] then 0
    else
      var k := LastWith(items[1..], tag);
      if k + 1 < |items| then k + 1 else if Carries(items[0], tag) then 0 else |items|
  }

  function AddressFrom(items: seq<Item>, tag: byte, otherwise: nat): nat
    requires tag == 1 || tag == 3 || tag == 6 || tag == 54
  {
    var k := LastWith(items, tag);
    if k == |items| then otherwise else GetBe32(items[k].value)
  }

  function MessageFrom(items: seq<Item>, otherwise: int): int {
    var k := LastWith(items, 53);
    if k == |items| then otherwise else items[k].value[0]
  }

  /** What an option list means: for every tag the last usable option wins. */
  function Meaning(c: Client, msg: int, items: seq<Item>): (Client, int) {
    (c.(mask := AddressFrom(items, 1, c.mask), gateway := AddressFrom(items, 3, c.gateway),
        dns := AddressFrom(items, 6, c.dns), server := AddressFrom(items, 54, c.server)),
     MessageFrom(items, msg))
  }

  function ApplyItem(c: Client, msg: int, o: Item): (Client, int) {
    if o.Pad? then (c, msg) else ApplyOption(c, msg, o.tag, |o.value|, o.value, 0)
  }

  lemma MeaningAddress(items: seq<Item>, tag: byte, otherwise: nat)
    requires items != [] && (tag == 1 || tag == 3 || tag == 6 || tag == 54)
    ensures AddressFrom(items, tag, otherwise) ==
            AddressFrom(items[1..], tag, if Carries(items[0], tag) then GetBe32(items[0].value) else otherwise)
  {
    hide Carries, GetBe32;
  }

  lemma MeaningStep(c: Client, msg: int, items: seq<Item>)
    requires items != [] && WellFormed(items)
    ensures var (c', msg') := ApplyItem(c, msg, items[0]); Meaning(c, msg, items) == Meaning(c', msg', items[1..])
  {
    MeaningAddress(items, 1, c.mask);
    MeaningAddress(items, 3, c.gateway);
    MeaningAddress(items, 6, c.dns);
    MeaningAddress(items, 54, c.server);
    assert items[0] in items;
    MeaningMessage(items, msg);
    hide LastWith, GetBe32, AddressFrom, MessageFrom;
  }

  lemma MeaningMessage(items: seq<Item>, otherwise: int)
    requires items != []
    ensures MessageFrom(items, otherwise) ==
            MessageFrom(items[1..], if Carries(items[0], 53) then items[0].value[0] as int else otherwise)
  {
    hide Carries;
  }

  lemma Be32Prefix(b: seq<byte>, rest: seq<byte>)
    requires |b| >= 4
    ensures GetBe32(b + rest) == GetBe32(b)
  {}

  /** The parser looks only at the option's own bytes. */
  lemma ApplyPrefix(c: Client, msg: int, o: Item, rest: seq<byte>, beyond: byte)
    requires o.Option? && (o.tag == 53 ==> o.value != [])
    ensures ApplyOption(c, msg, o.tag, |o.value|, o.value + rest, beyond) == ApplyItem(c, msg, o)
  {
    if |o.value| >= 4 { Be32Prefix(o.value, rest); }
    assert o.value != [] ==> (o.value + rest)[0] == o.value[0];
    hide GetBe32;
  }

  lemma SplitAt(b: seq<byte>, i: nat, first: seq<byte>, rest: seq<byte>)
    requires i <= |b| && b[i..] == first + rest
    ensures i + |first| <= |b| && b[i + |first|..] == rest
    ensures |first| >= 1 ==> b[i] == first[0]
    ensures |first| >= 2 ==> b[i + 1] == first[1] && b[i + 2..] == first[2..] + rest
  {
    var t := b[i..];
    assert |t| == |first| + |rest|;
    assert b[i + |first|..] == t[|first|..];
    assert |first| >= 1 ==> b[i] == t[0];
    assert |first| >= 2 ==> b[i + 1] == t[1] && b[i + 2..] == t[2..];
  }

  lemma ParseOne(c: Client, msg: int, opts: seq<byte>, i: nat, o: Item, rest: seq<byte>, beyond: byte)
    returns (next: nat, c': Client, msg': int)
    requires WellFormed([o]) && i <= |opts| && opts[i..] == EncodeItem(o) + rest
    ensures (c', msg') == ApplyItem(c, msg, o) && next <= |opts| && opts[next..] == rest
    ensures ParseOpts(c, msg, opts, i, beyond) == ParseOpts(c', msg', opts, next, beyond)
  {
    hide ApplyOption, ApplyItem, ParseOpts;
    var r := ApplyItem(c, msg, o);
    c', msg' := r.0, r.1;
    if o.Option? {
      assert o in [o];
      next := i + 2 + |o.value|;
      EncodedOption(opts, i, o, rest);
      ParseOption(c, msg, opts, i, o, rest, beyond);
    } else {
      next := i + 1;
      SplitAt(opts, i, [0], rest);
      ParsePad(c, msg, opts, i, beyond);
    }
  }

  lemma EncodedOption(opts: seq<byte>, i: nat, o: Item, rest: seq<byte>)
    requires o.Option? && |o.value| < 256 && i <= |opts| && opts[i..] == EncodeItem(o) + rest
    ensures i + 2 + |o.value| <= |opts| && opts[i] == o.tag && opts[i + 1] == |o.value|
    ensures opts[i + 2..] == o.value + rest && opts[i + 2 + |o.value|..] == rest
  {
    var first := EncodeItem(o);
    SplitAt(opts, i, first, rest);
    assert first[2..] == o.value;
  }

  lemma ParsePad(c: Client, msg: int, opts: seq<byte>, i: nat, beyond: byte)
    requires i < |opts| && opts[i] == 0
    ensures ApplyItem(c, msg, Pad) == (c, msg)
    ensures ParseOpts(c, msg, opts, i, beyond) == ParseOpts(c, msg, opts, i + 1, beyond)
  {}

  lemma ParseOption(c: Client, msg: int, opts: seq<byte>, i: nat, o: Item, rest: seq<byte>, beyond: byte)
    requires o.Option? && WellFormed([o]) && i + 2 <= |opts|
    requires opts[i] == o.tag && opts[i + 1] == |o.value| && opts[i + 2..] == o.value + rest
    ensures var (c', msg') := ApplyItem(c, msg, o);
            var next := i + 2 + |o.value|;
            next <= |opts| && ParseOpts(c, msg, opts, i, beyond) == ParseOpts(c', msg', opts, next, beyond)
  {
    assert o in [o];
    assert |opts[i + 2..]| == |o.value| + |rest|;
    ApplyPrefix(c, msg, o, rest, beyond);
    hide ApplyOption, ApplyItem, WellFormed;
  }

  lemma ParseEnd(c: Client, msg: int, opts: seq<byte>, i: nat, beyond: byte)
    requires i <= |opts| && (opts[i..] == [] || opts[i..][0] == 255)
    ensures ParseOpts(c, msg, opts, i, beyond) == (c, msg) == Meaning(c, msg, [])
  {
    assert i < |opts| ==> opts[i] == opts[i..][0];
  }

  lemma EncodeFirst(items: seq<Item>, rest: seq<byte>)
    requires WellFormed(items) && items != []
    ensures WellFormed([items[0]]) && WellFormed(items[1..])
    ensures Encode(items) + rest == EncodeItem(items[0]) + (Encode(items[1..]) + rest)
  {
    assert items[0] in items && forall x | x in items[1..] :: x in items;
    hide EncodeItem;
  }

  /** Parsing an encoded list up to its end marker gives the list's meaning. */
  lemma {:induction false} ParseIsMeaning(c: Client, msg: int, opts: seq<byte>, i: nat, items: seq<Item>, rest: seq<byte>, beyond: byte)
    requires WellFormed(items) && i <= |opts| && opts[i..] == Encode(items) + rest
    requires rest == [] || rest[0] == 255
    ensures ParseOpts(c, msg, opts, i, beyond) == Meaning(c, msg, items)
    decreases |items|
  {
    if items == [] {
      assert opts[i..] == rest;
      ParseEnd(c, msg, opts, i, beyond);
    } else {
      EncodeFirst(items, rest);
      hide WellFormed, EncodeItem, Encode, ApplyItem, ParseOpts, Meaning;
      var o := items[0];
      var next, c', msg' := ParseOne(c, msg, opts, i, o, Encode(items[1..]) + rest, beyond);
      ParseIsMeaning(c', msg', opts, next, items[1..], rest, beyond);
      MeaningStep(c, msg, items);
    }
  }

  // ---------------------------------------------------------------- what the client sends

  /** The options of an outgoing packet. */
  function SentItems(msgType: byte, mac: seq<byte>, requested: nat, server: nat): (items: seq<Item>)
    requires |mac| == 6 && requested < U32 && server < U32
    ensures WellFormed(items)
  {
    [Option(53, [msgType]), Option(61, [1] + mac)]
    + (if msgType as int == REQUEST then [Option(50, PutBe32(requested)), Option(54, PutBe32(server))] else [])
    + [Option(55, [1, 3, 6, 15])]
  }

  /** The options field as dhcp_send_pkt writes it, byte by byte, up to the end marker. */
  function SentOptions(msgType: byte, mac: seq<byte>, requested: nat, server: nat): (b: seq<byte>)
    requires |mac| == 6 && requested < U32 && server < U32
    ensures |b| <= 31
  {
    [53, 1, msgType, 61, 7, 1] + mac
    + (if msgType as int == REQUEST then [50, 4] + PutBe32(requested) + [54, 4] + PutBe32(server) else [])
    + [55, 4, 1, 3, 6, 15, 255]
  }

  lemma EncodeCons(o: Item, items: seq<Item>)
    requires WellFormed([o] + items)
    ensures WellFormed(items) && Encode([o] + items) == EncodeItem(o) + Encode(items)
  {
    EncodeFirst([o] + items, []);
    assert ([o] + items)[1..] == items && Encode([o] + items) + [] == Encode([o] + items) && Encode(items) + [] == Encode(items);
    hide EncodeItem;
  }

  lemma LastSent()
    ensures WellFormed([Option(55, [1, 3, 6, 15])])
    ensures Encode([Option(55, [1, 3, 6, 15])]) == [55, 4, 1, 3, 6, 15]
  {
    EncodeCons(Option(55, [1, 3, 6, 15]), []);
    assert [Option(55, [1, 3, 6, 15])] + [] == [Option(55, [1, 3, 6, 15])] && Encode([]) == [];
  }

  lemma RequestSent(requested: nat, server: nat, rest: seq<Item>)
    requires requested < U32 && server < U32 && WellFormed(rest)
    ensures var items := [Option(50, PutBe32(requested)), Option(54, PutBe32(server))] + rest;
            && WellFormed(items)
            && Encode(items) == [50, 4] + PutBe32(requested) + [54, 4] + PutBe32(server) + Encode(rest)
  {
    hide PutBe32, Encode;
    var from, at := Option(50, PutBe32(requested)), Option(54, PutBe32(server));
    EncodeCons(at, rest);
    EncodeCons(from, [at] + rest);
    assert [from, at] + rest == [from] + ([at] + rest);
  }

  lemma SentOptionsEncode(msgType: byte, mac: seq<byte>, requested: nat, server: nat)
    requires |mac| == 6 && requested < U32 && server < U32
    ensures SentOptions(msgType, mac, requested, server) == Encode(SentItems(msgType, mac, requested, server)) + [255]
  {
    hide PutBe32, Encode, WellFormed;
    var last := [Option(55, [1, 3, 6, 15])];
    LastSent();
    RequestSent(requested, server, last);
    var tail := if msgType as int == REQUEST then [Option(50, PutBe32(requested)), Option(54, PutBe32(server))] + last else last;
    var kind, id := Option(53, [msgType]), Option(61, [1] + mac);
    var items := SentItems(msgType, mac, requested, server);
    assert items == [kind] + ([id] + tail);
    EncodeCons(kind, [id] + tail);
    EncodeCons(id, tail);
  }

  /** What a server finds in the options of a packet sent: its type, the hardware address as client id, the
      four options asked for, and in a REQUEST, and only there, the address and the server chosen. */
  lemma SentItemsSay(msgType: byte, mac: seq<byte>, requested: nat, server: nat, o: Item)
    requires |mac| == 6 && requested < U32 && server < U32
    requires o in SentItems(msgType, mac, requested, server)
    ensures o.Option? && (o.tag in {50, 54} ==> msgType as int == REQUEST)
    ensures if o.tag == 53 then o.value == [msgType]
            else if o.tag == 61 then o.value == [1] + mac
            else if o.tag == 50 then |o.value| == 4 && GetBe32(o.value) == requested
            else if o.tag == 54 then |o.value| == 4 && GetBe32(o.value) == server
            else o.tag == 55 && o.value == [1, 3, 6, 15]
  {
    Be32RoundTrip(requested);
    Be32RoundTrip(server);
    hide PutBe32, GetBe32;
  }

  /** A receiver that parses what the client sent finds its message type and, in a REQUEST, the
      server it names. */
  lemma SentOptionsParse(c: Client, msgType: byte, mac: seq<byte>, requested: nat, server: nat, rest: seq<byte>, beyond: byte)
    requires |mac| == 6 && requested < U32 && server < U32
    ensures var (r, msg) := ParseOpts(c, 0, SentOptions(msgType, mac, requested, server) + rest, 0, beyond);
            msg == msgType as int && r == if msg == REQUEST then c.(server := server) else c
  {
    hide SentOptions, SentItems, Encode, ParseOpts, Meaning, PutBe32, WellFormed;
    var items := SentItems(msgType, mac, requested, server);
    var opts := SentOptions(msgType, mac, requested, server) + rest;
    SentOptionsEncode(msgType, mac, requested, server);
    assert opts[0..] == Encode(items) + ([255] + rest);
    ParseIsMeaning(c, 0, opts, 0, items, [255] + rest, beyond);
    SentMeaning(c, msgType, mac, requested, server);
  }

  lemma SentMeaning(c: Client, msgType: byte, mac: seq<byte>, requested: nat, server: nat)
    requires |mac| == 6 && requested < U32 && server < U32
    ensures var (r, msg) := Meaning(c, 0, SentItems(msgType, mac, requested, server));
            msg == msgType as int && r == if msg == REQUEST then c.(server := server) else c
  {
    Be32RoundTrip(server);
    hide PutBe32, GetBe32;
    var items := SentItems(msgType, mac, requested, server);
    assert Carries(items[0], 53);
    assert forall k | 0 < k < |items| :: !Carries(items[k], 53);
    assert forall k | 0 <= k < |items| :: !Carries(items[k], 1) && !Carries(items[k], 3) && !Carries(items[k], 6);
    if msgType as int == REQUEST {
      assert items[3] == Option(54, PutBe32(server)) && Carries(items[3], 54) && !Carries(items[4], 54);
    } else {
      assert forall k | 0 <= k < |items| :: !Carries(items[k], 54);
    }
  }

  // ---------------------------------------------------------------- what arrives

  /** The packet's address, message type and id as dhcp_rx reads them; a packet that is too short, not
      a reply, not ours or without the magic number is dropped. */
  predicate Accepted(data: seq<byte>) {
    && |data| >= PACKET && data[0] == 2 && GetBe32(data[4..8]) == XID && GetBe32(data[236..240]) == MAGIC
  }

  function Parsed(c: Client, data: seq<byte>, beyond: byte): (Client, int)
    requires |data| >= PACKET
  {
    ParseOpts(c, 0, data[OPTIONS..], 0, beyond)
  }

  /** The message type the parser finds does not depend on the client. */
  function MessageType(data: seq<byte>, beyond: byte): int
    requires |data| >= PACKET
  {
    Parsed(Reset(), data, beyond).1
  }

  /** dhcp_rx */
  function Receive(c: Client, data: seq<byte>, beyond: byte): Client {
    if !Accepted(data) then c
    else
      var (p, msg) := Parsed(c, data, beyond);
      var yours := GetBe32(data[16..20]);
      if msg == OFFER && !p.gotOffer then p.(offered := yours, gotOffer := true)
      else if msg == ACK && p.gotOffer then p.(offered := yours, gotAck := true)
      else if msg == NAK then p.(gotOffer := false, offered := 0, server := 0)
      else p
  }

  /** The fields in front of the options (section 2 of RFC 2131): hardware type, length and hops; seconds and
      flags; the client's hardware address, the server's name and the boot file. */
  datatype Fields = Fields(
    op: byte, hardware: seq<byte>, xid: nat, flags: seq<byte>, ciaddr: nat, yiaddr: nat, siaddr: nat, giaddr: nat,
    names: seq<byte>, magic: nat)

  predicate FieldsFit(f: Fields) {
    && |f.hardware| == 3 && |f.flags| == 4 && |f.names| == 208 && f.xid < U32 && f.magic < U32
    && f.ciaddr < U32 && f.yiaddr < U32 && f.siaddr < U32 && f.giaddr < U32
  }

  function Header(f: Fields): (b: seq<byte>)
    requires FieldsFit(f)
    ensures |b| == OPTIONS
  {
    [f.op] + f.hardware + PutBe32(f.xid) + f.flags
    + PutBe32(f.ciaddr) + PutBe32(f.yiaddr) + PutBe32(f.siaddr) + PutBe32(f.giaddr) + f.names + PutBe32(f.magic)
  }

  lemma HeaderReads(f: Fields, rest: seq<byte>)
    requires FieldsFit(f)
    ensures var data := Header(f) + rest;
            && data[0] == f.op && GetBe32(data[4..8]) == f.xid && GetBe32(data[16..20]) == f.yiaddr
            && GetBe32(data[236..240]) == f.magic && data[240..] == rest
  {
    hide PutBe32, GetBe32;
    var data := Header(f) + rest;
    assert data[4..8] == PutBe32(f.xid) && data[16..20] == PutBe32(f.yiaddr) && data[236..240] == PutBe32(f.magic);
    assert data[240..] == rest;
    Be32RoundTrip(f.xid);
    Be32RoundTrip(f.yiaddr);
    Be32RoundTrip(f.magic);
  }

  /** What dhcp_rx makes of a packet with these fields and options: nothing when it is too short, not a reply,
      to another transaction or without the magic number; otherwise the options count whatever the type, and
      the first OFFER, an ACK after it and a NAK change the address. */
  lemma ReplyReceived(c: Client, f: Fields, items: seq<Item>, pad: seq<byte>, beyond: byte)
    requires FieldsFit(f) && WellFormed(items)
    ensures var data := Header(f) + (Encode(items) + ([255] + pad));
            var (p, msg) := Meaning(c, 0, items);
            Receive(c, data, beyond) ==
            if |data| < 552 || f.op != 2 || f.xid != XID || f.magic != MAGIC then c
            else if msg == OFFER && !c.gotOffer then p.(gotOffer := true, offered := f.yiaddr)
            else if msg == ACK && c.gotOffer then p.(gotAck := true, offered := f.yiaddr)
            else if msg == NAK then p.(gotOffer := false, offered := 0, server := 0)
            else p
  {
    hide Header, Encode, ParseOpts, WellFormed, FieldsFit, GetBe32, AddressFrom, MessageFrom;
    var opts := Encode(items) + ([255] + pad);
    HeaderReads(f, opts);
    assert opts[0..] == opts;
    ParseIsMeaning(c, 0, opts, 0, items, [255] + pad, beyond);
  }

  lemma {:induction false} MessageIndependent(c: Client, d: Client, msg: int, opts: seq<byte>, i: nat, beyond: byte)
    requires i <= |opts|
    ensures ParseOpts(c, msg, opts, i, beyond).1 == ParseOpts(d, msg, opts, i, beyond).1
    decreases |opts| - i
  {
    hide GetBe32;
    if i == |opts| || opts[i] == 255 {
    } else if opts[i] == 0 {
      MessageIndependent(c, d, msg, opts, i + 1, beyond);
    } else if i + 1 < |opts| && i + 2 + opts[i + 1] as int <= |opts| {
      var len: int := opts[i + 1];
      var (c', m) := ApplyOption(c, msg, opts[i], len, opts[i + 2..], beyond);
      var (d', n) := ApplyOption(d, msg, opts[i], len, opts[i + 2..], beyond);
      MessageIndependent(c', d', m, opts, i + 2 + len, beyond);
    }
  }

  /** An arriving packet: its bytes and the byte that happens to follow them in memory. */
  datatype Packet = Packet(data: seq<byte>, beyond: byte)

  predicate Is(p: Packet, msg: int) { Accepted(p.data) && MessageType(p.data, p.beyond) == msg }

  function ReceiveAll(c: Client, ps: seq<Packet>): Client {
    if ps == [] then c
    else var n := |ps| - 1; Receive(ReceiveAll(c, ps[..n]), ps[n].data, ps[n].beyond)
  }

  /** Packet k is an OFFER and no NAK comes between it and the first n packets' end. */
  predicate OfferStands(ps: seq<Packet>, k: nat, n: nat)
    requires n <= |ps|
  {
    k < n && Is(ps[k], OFFER) && forall l | k < l < n :: !Is(ps[l], NAK)
  }

  /** An ACK at position m of which an OFFER stands. */
  predicate Handshake(ps: seq<Packet>, k: nat, m: nat) {
    m < |ps| && Is(ps[m], ACK) && OfferStands(ps, k, m)
  }

  lemma ReceiveFlags(c: Client, p: Packet)
    ensures var r := Receive(c, p.data, p.beyond);
            && r.gotOffer == (Is(p, OFFER) || (c.gotOffer && !Is(p, NAK)))
            && r.gotAck == (c.gotAck || (c.gotOffer && Is(p, ACK)))
  {
    if Accepted(p.data) { MessageIndependent(c, Reset(), 0, p.data[OPTIONS..], 0, p.beyond); }
    hide Accepted, ParseOpts, GetBe32;
  }

  ghost predicate HasOffer(ps: seq<Packet>) { exists k: nat :: OfferStands(ps, k, |ps|) }

  ghost predicate HasAck(ps: seq<Packet>) { exists k: nat, m: nat :: Handshake(ps, k, m) }

  /** After a reset the client has an offer exactly when a matching OFFER came after the last NAK, and
      it has an ACK exactly when an OFFER was followed by an ACK with no NAK between them. */
  lemma {:induction false} AckNeedsOffer(ps: seq<Packet>)
    ensures ReceiveAll(Reset(), ps).gotOffer <==> HasOffer(ps)
    ensures ReceiveAll(Reset(), ps).gotAck <==> HasAck(ps)
  {
    if ps != [] {
      hide Receive, HasOffer, HasAck, Is;
      var n := |ps| - 1;
      AckNeedsOffer(ps[..n]);
      ReceiveFlags(ReceiveAll(Reset(), ps[..n]), ps[n]);
      OfferLater(ps, n);
      AckLater(ps, n);
    }
  }

  lemma OfferLater(ps: seq<Packet>, n: nat)
    requires n + 1 == |ps|
    ensures HasOffer(ps) <==> Is(ps[n], OFFER) || (!Is(ps[n], NAK) && HasOffer(ps[..n]))
  {
    hide Is;
    if Is(ps[n], OFFER) { assert OfferStands(ps, n, |ps|); }
    forall k: nat | OfferStands(ps[..n], k, n) && !Is(ps[n], NAK) ensures OfferStands(ps, k, |ps|) {}
    forall k: nat | OfferStands(ps, k, |ps|) && k < n ensures OfferStands(ps[..n], k, n) {}
  }

  lemma AckLater(ps: seq<Packet>, n: nat)
    requires n + 1 == |ps|
    ensures HasAck(ps) <==> HasAck(ps[..n]) || (Is(ps[n], ACK) && HasOffer(ps[..n]))
  {
    hide Is;
    forall k: nat, m: nat | Handshake(ps, k, m) && m < n ensures Handshake(ps[..n], k, m) {}
    forall k: nat, m: nat | Handshake(ps[..n], k, m) ensures Handshake(ps, k, m) {}
    forall k: nat | OfferStands(ps[..n], k, n) && Is(ps[n], ACK) ensures Handshake(ps, k, n) {}
    forall k: nat | Handshake(ps, k, n) ensures OfferStands(ps[..n], k, n) {}
  }

  function Yours(data: seq<byte>): nat
    requires |data| >= 20
  {
    GetBe32(data[16..20])
  }

  lemma ReceiveAddress(c: Client, p: Packet)
    ensures var r := Receive(c, p.data, p.beyond);
            && (Is(p, ACK) && c.gotOffer ==> r.offered == Yours(p.data))
            && (Is(p, OFFER) && !c.gotOffer ==> r.offered == Yours(p.data))
            && (Is(p, NAK) ==> r.offered == 0)
            && (c.gotOffer && !Is(p, ACK) && !Is(p, NAK) ==> r.offered == c.offered)
  {
    if Accepted(p.data) { MessageIndependent(c, Reset(), 0, p.data[OPTIONS..], 0, p.beyond); }
    hide Accepted, ParseOpts, GetBe32;
  }

  /** The address of the last ACK stands until a NAK: later OFFERs do not replace it. */
  lemma {:induction false} AckedAddressStands(ps: seq<Packet>, k: nat, m: nat)
    requires Handshake(ps, k, m) && forall l | m < l < |ps| :: !Is(ps[l], ACK) && !Is(ps[l], NAK)
    ensures var c := ReceiveAll(Reset(), ps); c.gotOffer && c.gotAck && c.offered == Yours(ps[m].data)
  {
    hide Receive, Is, GetBe32;
    var n := |ps| - 1;
    var before := ps[..n];
    ReceiveFlags(ReceiveAll(Reset(), before), ps[n]);
    ReceiveAddress(ReceiveAll(Reset(), before), ps[n]);
    if m == n {
      assert OfferStands(before, k, n);
      AckNeedsOffer(before);
      AckIsNotNak(ps[n]);
    } else {
      assert Handshake(before, k, m);
      AckedAddressStands(before, k, m);
    }
  }

  lemma AckIsNotNak(p: Packet)
    ensures !(Is(p, ACK) && Is(p, NAK)) && !(Is(p, ACK) && Is(p, OFFER))
  {}

  /** A NAK after the ACK withdraws the address but not the success flag. */
  lemma NakAfterAck(ps: seq<Packet>, nak: Packet)
    requires HasAck(ps) && Is(nak, NAK)
    ensures var c := ReceiveAll(Reset(), ps + [nak]); c.gotAck && c.offered == 0 && c.server == 0
  {
    var all := ps + [nak];
    assert all[..|all| - 1] == ps;
    AckNeedsOffer(ps);
    ReceiveFlags(ReceiveAll(Reset(), ps), nak);
    hide HasAck, ParseOpts, GetBe32;
    var c := ReceiveAll(Reset(), ps);
    MessageIndependent(c, Reset(), 0, nak.data[OPTIONS..], 0, nak.beyond);
  }

  // ---------------------------------------------------------------- which address the client holds

  /** The first position that no NAK among the first n packets follows. */
  function SinceNak(ps: seq<Packet>, n: nat): (r: nat)
    requires n <= |ps|
    ensures r <= n && (r > 0 ==> Is(ps[r - 1], NAK)) && forall l | r <= l < n :: !Is(ps[l], NAK)
  {
    if n == 0 then 0 else if Is(ps[n - 1], NAK) then n else SinceNak(ps, n - 1)
  }

  /** The first OFFER from position `from` on among the first n packets; n when there is none. */
  function FirstOffer(ps: seq<Packet>, from: nat, n: nat): (r: nat)
    requires from <= n <= |ps|
    ensures from <= r <= n && (r < n ==> Is(ps[r], OFFER)) && forall l | from <= l < r :: !Is(ps[l], OFFER)
    decreases n
  {
    if n == from then n
    else
      var r := FirstOffer(ps, from, n - 1);
      if r < n - 1 || Is(ps[n - 1], OFFER) then r else n
  }

  /** The last ACK after position k among the first n packets; k when there is none. */
  function LastAck(ps: seq<Packet>, k: nat, n: nat): (r: nat)
    requires k < n <= |ps|
    ensures k <= r < n && (k < r ==> Is(ps[r], ACK)) && forall l | r < l < n :: !Is(ps[l], ACK)
    decreases n
  {
    if n == k + 1 then k else if Is(ps[n - 1], ACK) then n - 1 else LastAck(ps, k, n - 1)
  }

  /** The address after n packets: that of the last ACK that followed the first OFFER since the last NAK;
      without such an ACK the OFFER's; without an OFFER 0. */
  function Address(ps: seq<Packet>, n: nat): int
    requires n <= |ps|
  {
    var k := FirstOffer(ps, SinceNak(ps, n), n);
    if k == n then 0 else var data := ps[LastAck(ps, k, n)].data; if |data| >= 20 then Yours(data) else 0
  }

  lemma ReceiveNothing(c: Client, p: Packet)
    ensures var r := Receive(c, p.data, p.beyond); !c.gotOffer && !Is(p, OFFER) && c.offered == 0 ==> r.offered == 0
  {
    if Accepted(p.data) { MessageIndependent(c, Reset(), 0, p.data[OPTIONS..], 0, p.beyond); }
    hide Accepted, ParseOpts, GetBe32;
  }

  /** What the client holds after any packets since a reset. */
  lemma {:induction false} AddressHeld(ps: seq<Packet>, n: nat)
    requires n <= |ps|
    ensures var c := ReceiveAll(Reset(), ps[..n]);
            c.offered == Address(ps, n) && (c.gotOffer <==> FirstOffer(ps, SinceNak(ps, n), n) < n)
  {
    hide Receive, Is, GetBe32, Accepted;
    if n > 0 {
      var p := ps[n - 1];
      AddressHeld(ps, n - 1);
      assert ps[..n][..n - 1] == ps[..n - 1];
      var c := ReceiveAll(Reset(), ps[..n - 1]);
      OnlyOneType(p);
      ReceiveFlags(c, p);
      ReceiveAddress(c, p);
      ReceiveNothing(c, p);
    }
  }

  /** A packet has one type, and one that is accepted has an address field. */
  lemma OnlyOneType(p: Packet)
    ensures !(Is(p, ACK) && Is(p, NAK)) && !(Is(p, ACK) && Is(p, OFFER)) && !(Is(p, OFFER) && Is(p, NAK))
    ensures Is(p, ACK) || Is(p, OFFER) ==> |p.data| >= 20
  {}

  /** An OFFER was followed by an ACK, and no NAK came between them or after the ACK. */
  ghost predicate AckStands(ps: seq<Packet>) {
    exists k: nat, m: nat :: Handshake(ps, k, m) && forall l | m < l < |ps| :: !Is(ps[l], NAK)
  }

  /** The client holds an acknowledged address exactly when an ACK stands; a client that has seen an ACK
      all the same holds, otherwise, the address of an OFFER nobody acknowledged, or none. */
  lemma AcknowledgedIff(ps: seq<Packet>)
    ensures var n := |ps|;
            var k := FirstOffer(ps, SinceNak(ps, n), n);
            && (AckStands(ps) <==> k < n && LastAck(ps, k, n) > k)
            && ReceiveAll(Reset(), ps).offered ==
               (if k == n then 0 else if AckStands(ps) then Yours(ps[LastAck(ps, k, n)].data) else Yours(ps[k].data))
  {
    hide Receive, Is, GetBe32, SinceNak, FirstOffer, LastAck;
    var n := |ps|;
    var from := SinceNak(ps, n);
    var k := FirstOffer(ps, from, n);
    AddressHeld(ps, n);
    assert ps[..n] == ps;
    if k < n {
      var m := LastAck(ps, k, n);
      OnlyOneType(ps[k]);
      OnlyOneType(ps[m]);
      if m > k { assert Handshake(ps, k, m); }
    }
    forall i: nat, m: nat | Handshake(ps, i, m) && forall l | m < l < n :: !Is(ps[l], NAK) ensures k < m && LastAck(ps, k, n) >= m {
      AckIsLate(ps, i, m);
    }
  }

  lemma AckIsLate(ps: seq<Packet>, i: nat, m: nat)
    requires Handshake(ps, i, m) && forall l | m < l < |ps| :: !Is(ps[l], NAK)
    ensures var k := FirstOffer(ps, SinceNak(ps, |ps|), |ps|); k < m && LastAck(ps, k, |ps|) >= m
  {
    hide Is, SinceNak, FirstOffer, LastAck;
    var from := SinceNak(ps, |ps|);
    OnlyOneType(ps[m]);
    OnlyOneType(ps[i]);
    assert from > 0 ==> Is(ps[from - 1], NAK);
    assert from <= i;
  }

  /** The worst case: after ACK, NAK and another OFFER the client still counts as successful, and holds the
      address of that OFFER. */
  lemma OfferAfterNak(ps: seq<Packet>, nak: Packet, offer: Packet)
    requires HasAck(ps) && Is(nak, NAK) && Is(offer, OFFER)
    ensures var all := ps + [nak, offer];
            var c := ReceiveAll(Reset(), all);
            c.gotAck && !AckStands(all) && c.offered == Yours(offer.data)
  {
    hide Receive, Is, GetBe32, HasAck;
    var all := ps + [nak, offer];
    var n := |all|;
    OnlyOneType(offer);
    OnlyOneType(nak);
    AckLater(all, n - 1);
    AckLater(all[..n - 1], n - 2);
    assert all[..n - 1][..n - 2] == ps;
    AckNeedsOffer(all);
    AcknowledgedIff(all);
    assert all[n - 1] == offer && all[n - 2] == nak;
    assert SinceNak(all, n) == n - 1 && FirstOffer(all, n - 1, n) == n - 1;
  }

  // ---------------------------------------------------------------- the loops themselves

  class DhcpClient {
    var gotOffer: bool
    var gotAck: bool
    var offered: nat
    var server: nat
    var gateway: nat
    var mask: nat
    var dns: nat

    function State(): Client
      reads this
    {
      Client(gotOffer, gotAck, offered, server, gateway, mask, dns)
    }

    /** dhcp_request before it sends. */
    constructor ()
      ensures State() == Reset()
    {
      gotOffer, gotAck := false, false;
      offered, server, gateway, mask, dns := 0, 0, 0, 0, 0;
    }

    method ParseOptions(opts: seq<byte>, beyond: byte) returns (msg: int)
      modifies this
      ensures (State(), msg) == ParseOpts(old(State()), 0, opts, 0, beyond)
    {
      hide GetBe32;
      msg := 0;
      var i := 0;
      while i < |opts|
        invariant i <= |opts|
        invariant ParseOpts(State(), msg, opts, i, beyond) == ParseOpts(old(State()), 0, opts, 0, beyond)
      {
        var tag := opts[i];
        if tag == 255 { break; }
        if tag == 0 { i := i + 1; continue; }
        if i + 1 >= |opts| { break; }
        var len: int := opts[i + 1];
        if i + 2 + len > |opts| { break; }
        msg := TakeOption(tag, len, opts[i + 2..], msg, beyond);
        i := i + 2 + len;
      }
    }

    /** The switch on the tag. */
    method TakeOption(tag: byte, len: nat, value: seq<byte>, msg: int, beyond: byte) returns (r: int)
      requires len <= |value|
      modifies this
      ensures (State(), r) == ApplyOption(old(State()), msg, tag, len, value, beyond)
    {
      hide GetBe32;
      r := msg;
      match tag
      case 53 => r := if value == [] then beyond else value[0];
      case 1 => if len == 4 { mask := GetBe32(value); }
      case 3 => if len >= 4 { gateway := GetBe32(value); }
      case 6 => if len >= 4 { dns := GetBe32(value); }
      case 54 => if len == 4 { server := GetBe32(value); }
      case _ =>
    }

    /** dhcp_rx */
    method Arrive(data: seq<byte>, beyond: byte)
      modifies this
      ensures State() == Receive(old(State()), data, beyond)
    {
      hide GetBe32, ParseOpts;
      if |data| < PACKET { return; }
      if data[0] != 2 { return; }
      if GetBe32(data[4..8]) != XID { return; }
      if GetBe32(data[236..240]) != MAGIC { return; }
      var msg := ParseOptions(data[OPTIONS..], beyond);
      if msg == OFFER && !gotOffer {
        offered, gotOffer := GetBe32(data[16..20]), true;
      } else if msg == ACK && gotOffer {
        offered, gotAck := GetBe32(data[16..20]), true;
      } else if msg == NAK {
        gotOffer, offered, server := false, 0, 0;
      }
    }
  }

  /** The option writes of dhcp_send_pkt into the zeroed options field. */
  method WriteOptions(o: array<byte>, msgType: byte, mac: array<byte>, requested: nat, server: nat) returns (n: nat)
    requires o.Length == 312 && mac.Length == 6 && mac != o && requested < U32 && server < U32
    modifies o
    ensures n <= o.Length && o[..n] == SentOptions(msgType, mac[..], requested, server)
    ensures forall k | n <= k < o.Length :: o[k] == old(o[k])
  {
    hide PutBe32;
    n := WriteIdentity(o, msgType, mac);
    if msgType as int == REQUEST {
      n := WriteAddress(o, n, 50, requested);
      n := WriteAddress(o, n, 54, server);
    }
    n := WriteRequestedOptions(o, n);
  }

  method WriteIdentity(o: array<byte>, msgType: byte, mac: array<byte>) returns (n: nat)
    requires o.Length == 312 && mac.Length == 6 && mac != o
    modifies o
    ensures n == 12 && o[..n] == [53, 1, msgType, 61, 7, 1] + mac[..]
    ensures forall k | n <= k < o.Length :: o[k] == old(o[k])
  {
    o[0], o[1], o[2] := 53, 1, msgType;
    o[3], o[4], o[5] := 61, 7, 1;
    assert o[..6] == [53, 1, msgType, 61, 7, 1];
    for i := 0 to 6
      invariant o[..6 + i] == [53, 1, msgType, 61, 7, 1] + mac[..i]
      invariant forall k | 6 + i <= k < o.Length :: o[k] == old(o[k])
    {
      o[6 + i] := mac[i];
    }
    n := 12;
  }

  method WriteRequestedOptions(o: array<byte>, n: nat) returns (end: nat)
    requires n + 7 <= o.Length
    modifies o
    ensures end == n + 7 && o[..end] == old(o[..n]) + [55, 4, 1, 3, 6, 15, 255]
    ensures forall k | end <= k < o.Length :: o[k] == old(o[k])
  {
    o[n], o[n + 1], o[n + 2], o[n + 3], o[n + 4], o[n + 5] := 55, 4, 1, 3, 6, 15;
    o[n + 6] := 255;
    end := n + 7;
  }

  method WriteAddress(o: array<byte>, n: nat, tag: byte, address: nat) returns (end: nat)
    requires n + 6 <= o.Length && address < U32
    modifies o
    ensures end == n + 6 && o[..end] == old(o[..n]) + [tag, 4] + PutBe32(address)
    ensures forall k | end <= k < o.Length :: o[k] == old(o[k])
  {
    o[n], o[n + 1] := tag, 4;
    o[n + 2], o[n + 3], o[n + 4], o[n + 5] :=
      address / 0x100_0000, address / 0x1_0000 % 256, address / 256 % 256, address % 256;
    end := n + 6;
  }
}
