/** Event parameter blocks and the auxiliary channel (rsfbclient-rust/src/events.rs). */
module Events {
  import opened Wrappers
  import opened Util
  import Wire
  import Client
  import opened Session

  const EPB_VERSION1: byte := 1
  const MAX_EVENT_NAME_LEN: nat := 255
  const MAX_EVENT_BLOCK_LEN: nat := 65535

  const OP_EXIT: u32 := 2
  const OP_DISCONNECT: u32 := 6

  /** A character set: two partial functions. */
  datatype Charset = Charset(encode: string -> Option<seq<byte>>, decode: seq<byte> -> Option<string>)

  /** What it encodes, it decodes to the same text. */
  ghost predicate Faithful(cs: Charset) {
    forall s: string :: cs.encode(s).Some? ==> cs.decode(cs.encode(s).value) == Some(s)
  }

  datatype EventError =
    | EmptyName
    | NotEncodable
    | NameTooLong
    | BlockTooLong
    | EmptyBlock
    | UnknownVersion
    | TruncatedBlock
    | NotDecodable
    | NoSuchEvent

  type Event = (string, u32)

  // ---------------------------------------------------------------- building a block

  /** `trim_end_matches(' ')`. */
  function TrimEnd(s: string): (t: string)
    ensures t <= s && (t != "" ==> t[|t| - 1] != ' ')
    ensures forall i :: |t| <= i < |s| ==> s[i] == ' '
  {
    if s != "" && s[|s| - 1] == ' ' then TrimEnd(s[..|s| - 1]) else s
  }

  function NormalizeName(name: string): Result<string, EventError> {
    if TrimEnd(name) == "" then Err(EmptyName) else Ok(TrimEnd(name))
  }

  /** `encode_event_name`: the limit is on the encoded bytes. */
  function EncodeName(cs: Charset, name: string): (r: Result<seq<byte>, EventError>)
    ensures r.Ok? ==> |r.value| <= MAX_EVENT_NAME_LEN
  {
    match NormalizeName(name)
    case Err(e) => Err(e)
    case Ok(trimmed) =>
      match cs.encode(trimmed)
      case None => Err(NotEncodable)
      case Some(encoded) => if |encoded| > MAX_EVENT_NAME_LEN then Err(NameTooLong) else Ok(encoded)
  }

  /** Exactly which names can be sent, and as what: without its blanks at the end a name must not be
      empty, must be encodable, and its encoding at most 255 bytes long; the encoding is sent. */
  lemma NameOkIff(cs: Charset, name: string)
    ensures EncodeName(cs, name).Ok? <==>
              TrimEnd(name) != "" && cs.encode(TrimEnd(name)).Some? && |cs.encode(TrimEnd(name)).value| <= 255
    ensures EncodeName(cs, name).Ok? ==> cs.encode(TrimEnd(name)) == Some(EncodeName(cs, name).value)
    ensures EncodeName(cs, name).Err? ==>
              EncodeName(cs, name).error
              == if TrimEnd(name) == "" then EmptyName
                 else if cs.encode(TrimEnd(name)).None? then NotEncodable
                 else NameTooLong
  {
  }

  function EntryBytes(name: seq<byte>, count: u32): seq<byte>
    requires |name| <= MAX_EVENT_NAME_LEN
  {
    [|name|] + name + U32LeBytes(count)
  }

  lemma EntryLayout(name: seq<byte>, count: u32)
    requires |name| <= MAX_EVENT_NAME_LEN
    ensures EntryBytes(name, count) == [|name|] + name + U32LeBytes(count)
  {
  }

  /** The entries of a block; the first name that cannot be sent decides the error. */
  function Entries(cs: Charset, events: seq<Event>): Result<seq<byte>, EventError> {
    if events == [] then Ok([])
    else
      match EncodeName(cs, events[0].0)
      case Err(e) => Err(e)
      case Ok(name) =>
        match Entries(cs, events[1..])
        case Err(e) => Err(e)
        case Ok(rest) => Ok(EntryBytes(name, events[0].1) + rest)
  }

  function BlockSpec(cs: Charset, events: seq<Event>): (r: Result<seq<byte>, EventError>)
    ensures r.Ok? ==> 1 <= |r.value| <= MAX_EVENT_BLOCK_LEN
  {
    match Entries(cs, events)
    case Err(e) => Err(e)
    case Ok(entries) => if 1 + |entries| > MAX_EVENT_BLOCK_LEN then Err(BlockTooLong) else Ok([EPB_VERSION1] + entries)
  }

  /** `event_block`. */
  method EventBlock(cs: Charset, events: seq<Event>) returns (r: Result<seq<byte>, EventError>)
    ensures r == BlockSpec(cs, events)
  {
    hide EncodeName, EntryBytes, U32LeBytes;
    var epb: seq<byte> := [EPB_VERSION1];
    assert events[0..] == events && epb[1..] == [];
    assert Entries(cs, events).Ok? ==> epb[1..] + Entries(cs, events).value == Entries(cs, events).value;
    for i := 0 to |events|
      invariant |epb| >= 1 && epb[0] == EPB_VERSION1
      invariant Entries(cs, events)
             == match Entries(cs, events[i..])
                case Err(e) => Err(e)
                case Ok(rest) => Ok(epb[1..] + rest)
    {
      assert events[i..][0] == events[i] && events[i..][1..] == events[i + 1..];
      var name := EncodeName(cs, events[i].0);
      if name.Err? {
        return Err(name.error);
      }
      ghost var before := epb[1..];
      epb := epb + [|name.value|];
      epb := epb + name.value;
      epb := epb + U32LeBytes(events[i].1);
      assert epb[1..] == before + EntryBytes(name.value, events[i].1) by {
        EntryLayout(name.value, events[i].1);
      }
      if Entries(cs, events[i + 1..]).Ok? {
        var rest := Entries(cs, events[i + 1..]).value;
        assert epb[1..] + rest == before + (EntryBytes(name.value, events[i].1) + rest);
      }
    }
    assert epb[1..] + [] == epb[1..] && epb == [EPB_VERSION1] + epb[1..];
    if |epb| > MAX_EVENT_BLOCK_LEN {
      return Err(BlockTooLong);
    }
    return Ok(epb);
  }

  // ---------------------------------------------------------------- parsing a block

  function ParseEntries(cs: Charset, s: seq<byte>, events: seq<Event>): Result<seq<Event>, EventError>
    decreases |s|
  {
    if s == [] then Ok(events)
    else
      var len := s[0];
      var tail := s[1..];
      if |tail| < len as int + 4 then Err(TruncatedBlock)
      else
        match cs.decode(tail[..len])
        case None => Err(NotDecodable)
        case Some(name) =>
          var count := ReadU32Le(tail[len..]).value;
          ParseEntries(cs, tail[len as int + 4..], events + [(name, count)])
  }

  function ParseSpec(cs: Charset, epb: seq<byte>): Result<seq<Event>, EventError> {
    if epb == [] then Err(EmptyBlock)
    else if epb[0] != EPB_VERSION1 then Err(UnknownVersion)
    else ParseEntries(cs, epb[1..], [])
  }

  /** `parse_event_block`. */
  method ParseEventBlock(cs: Charset, epb: seq<byte>) returns (r: Result<seq<Event>, EventError>)
    ensures r == ParseSpec(cs, epb)
  {
    hide ReadU32Le;
    if epb == [] {
      return Err(EmptyBlock);
    }
    if epb[0] != EPB_VERSION1 {
      return Err(UnknownVersion);
    }
    var rest := epb[1..];
    var events: seq<Event> := [];
    while rest != []
      invariant ParseEntries(cs, rest, events) == ParseSpec(cs, epb)
      decreases |rest|
    {
      var len := rest[0];
      var tail := rest[1..];
      if |tail| < len as int + 4 {
        return Err(TruncatedBlock);
      }
      var name := cs.decode(tail[..len]);
      if name.None? {
        return Err(NotDecodable);
      }
      var count := ReadU32Le(tail[len..]);
      events := events + [(name.value, count.value)];
      rest := tail[len as int + 4..];
    }
    return Ok(events);
  }

  /** The first counter of the given name. */
  function EventCount(events: seq<Event>, name: string): (r: Result<u32, EventError>)
    ensures r.Ok? <==> exists i :: 0 <= i < |events| && events[i].0 == name
    ensures r.Ok? ==> exists i :: 0 <= i < |events| && events[i] == (name, r.value)
                                  && forall j :: 0 <= j < i ==> events[j].0 != name
  {
    if events == [] then Err(NoSuchEvent)
    else if events[0].0 == name then
      assert events[0] == (name, events[0].1);
      Ok(events[0].1)
    else
      var r := EventCount(events[1..], name);
      assert forall i :: 0 <= i < |events[1..]| ==> events[1..][i] == events[i + 1];
      assert r.Ok? ==> exists i :: 0 <= i < |events[1..]| && events[1..][i] == (name, r.value)
                                   && forall j :: 0 <= j < i ==> events[1..][j].0 != name;
      r
  }

  /** The events as the server stores them. */
  function Trimmed(events: seq<Event>): (r: seq<Event>)
    ensures |r| == |events|
    ensures forall i :: 0 <= i < |events| ==> r[i] == (TrimEnd(events[i].0), events[i].1)
  {
    seq(|events|, i requires 0 <= i < |events| => (TrimEnd(events[i].0), events[i].1))
  }

  lemma {:induction false} EntriesRoundTrip(cs: Charset, events: seq<Event>, before: seq<Event>)
    requires Faithful(cs) && Entries(cs, events).Ok?
    ensures ParseEntries(cs, Entries(cs, events).value, before) == Ok(before + Trimmed(events))
    decreases |events|
  {
    hide ParseEntries, EntryBytes, TrimEnd, Trimmed;
    if events == [] {
      NothingToParse(cs, before);
      assert before + Trimmed(events) == before;
    } else {
      var (name, count) := events[0];
      var stored := (TrimEnd(name), count);
      EntryRead(cs, EncodeName(cs, name).value, stored, Entries(cs, events[1..]).value, before);
      EntriesRoundTrip(cs, events[1..], before + [stored]);
      TrimmedStep(events);
      assert before + [stored] + Trimmed(events[1..]) == before + ([stored] + Trimmed(events[1..]));
    }
  }

  lemma NothingToParse(cs: Charset, before: seq<Event>)
    ensures ParseEntries(cs, [], before) == Ok(before)
  {
  }

  lemma TrimmedStep(events: seq<Event>)
    requires events != []
    ensures Trimmed(events) == [(TrimEnd(events[0].0), events[0].1)] + Trimmed(events[1..])
  {
  }

  /** One entry is read back. */
  lemma EntryRead(cs: Charset, name: seq<byte>, event: Event, rest: seq<byte>, before: seq<Event>)
    requires |name| <= MAX_EVENT_NAME_LEN && cs.decode(name) == Some(event.0)
    ensures ParseEntries(cs, EntryBytes(name, event.1) + rest, before) == ParseEntries(cs, rest, before + [event])
  {
    hide ReadU32Le, U32LeBytes;
    var s := EntryBytes(name, event.1) + rest;
    var count := U32LeBytes(event.1);
    assert s[0] == |name| && s[1..] == name + (count + rest);
    assert s[1..][..|name|] == name && s[1..][|name|..] == count + rest;
    assert s[1..][|name| + 4..] == rest;
    U32LeRoundTrip(event.1, rest);
  }

  /** A block that could be built is parsed back to the same names, without trailing blanks, and
      the same counters; and so it is after a trip through the padded wire format. */
  lemma BlockRoundTrip(cs: Charset, events: seq<Event>, more: seq<byte>)
    requires Faithful(cs) && BlockSpec(cs, events).Ok?
    ensures ParseSpec(cs, BlockSpec(cs, events).value) == Ok(Trimmed(events))
    ensures FitsWire(BlockSpec(cs, events).value)
    ensures ReadWireBytes(WireBytes(BlockSpec(cs, events).value) + more) == Done(BlockSpec(cs, events).value, more)
  {
    hide ReadWireBytes, WireBytes, ParseEntries, Entries;
    var epb := BlockSpec(cs, events).value;
    assert epb[1..] == Entries(cs, events).value;
    EntriesRoundTrip(cs, events, []);
    assert [] + Trimmed(events) == Trimmed(events);
    WireBytesRoundTrip(epb, more);
  }

  /** Exactly which blocks can be built: every name must leave something after trimming, be
      encodable and short enough, and the block as a whole must be short enough. */
  lemma {:induction false} EntriesOkIff(cs: Charset, events: seq<Event>)
    ensures Entries(cs, events).Ok? <==> forall i :: 0 <= i < |events| ==> EncodeName(cs, events[i].0).Ok?
  {
    hide EncodeName;
    if events != [] {
      EntriesOkIff(cs, events[1..]);
      assert forall i :: 1 <= i < |events| ==> events[i] == events[1..][i - 1];
    }
  }

  /** The length of the entries: for each event two length fields and its encoded name. */
  function EntriesLen(cs: Charset, events: seq<Event>): nat {
    if events == [] then 0
    else
      (match cs.encode(TrimEnd(events[0].0))
       case Some(name) => 1 + |name| + 4
       case None => 0) + EntriesLen(cs, events[1..])
  }

  /** Exactly which blocks can be built, and why the others cannot: the first name that cannot be
      sent decides, and otherwise the block must not be longer than 65535 bytes. */
  lemma BlockOkIff(cs: Charset, events: seq<Event>, k: nat)
    ensures BlockSpec(cs, events).Ok? <==>
              (forall i :: 0 <= i < |events| ==> EncodeName(cs, events[i].0).Ok?) && 1 + EntriesLen(cs, events) <= 65535
    ensures k < |events| && EncodeName(cs, events[k].0).Err?
            && (forall i :: 0 <= i < k ==> EncodeName(cs, events[i].0).Ok?) ==>
              BlockSpec(cs, events) == Err(EncodeName(cs, events[k].0).error)
    ensures (forall i :: 0 <= i < |events| ==> EncodeName(cs, events[i].0).Ok?) && 1 + EntriesLen(cs, events) > 65535 ==>
              BlockSpec(cs, events) == Err(BlockTooLong)
  {
    hide EncodeName, Entries, EntriesLen;
    EntriesOkIff(cs, events);
    if Entries(cs, events).Ok? {
      EntriesLength(cs, events);
    }
    if k < |events| && EncodeName(cs, events[k].0).Err?
       && forall i :: 0 <= i < k ==> EncodeName(cs, events[i].0).Ok? {
      FirstBadName(cs, events, k);
    }
  }

  lemma {:induction false} EntriesLength(cs: Charset, events: seq<Event>)
    requires Entries(cs, events).Ok?
    ensures |Entries(cs, events).value| == EntriesLen(cs, events)
  {
    if events != [] {
      EntriesLength(cs, events[1..]);
    }
  }

  lemma {:induction false} FirstBadName(cs: Charset, events: seq<Event>, k: nat)
    requires k < |events| && EncodeName(cs, events[k].0).Err?
    requires forall i :: 0 <= i < k ==> EncodeName(cs, events[i].0).Ok?
    ensures Entries(cs, events) == Err(EncodeName(cs, events[k].0).error)
    decreases k
  {
    hide EncodeName;
    if k > 0 {
      FirstBadName(cs, events[1..], k - 1);
    }
  }

  /** Blocks that are refused: an empty one, one of another version, and one that breaks off inside
      an entry or has a name that cannot be decoded, whatever entries come before. */
  lemma BadBlockIsRefused(cs: Charset, events: seq<Event>, version: byte, entry: seq<byte>)
    requires Faithful(cs) && Entries(cs, events).Ok?
    ensures ParseSpec(cs, []) == Err(EmptyBlock)
    ensures version != 1 ==> ParseSpec(cs, [version] + entry) == Err(UnknownVersion)
    ensures entry != [] && |entry| < 1 + entry[0] as int + 4 ==>
              ParseSpec(cs, [1] + (Entries(cs, events).value + entry)) == Err(TruncatedBlock)
    ensures entry != [] && |entry| >= 1 + entry[0] as int + 4
            && cs.decode(entry[1..1 + entry[0] as int]).None? ==>
              ParseSpec(cs, [1] + (Entries(cs, events).value + entry)) == Err(NotDecodable)
  {
    hide Entries;
    var s := Entries(cs, events).value + entry;
    assert ([1] + s)[1..] == s;
    EntriesBefore(cs, events, entry, []);
    if entry != [] && |entry| >= 1 + entry[0] as int + 4 {
      assert entry[1..][..entry[0]] == entry[1..1 + entry[0] as int];
    }
  }

  lemma {:induction false} EntriesBefore(cs: Charset, events: seq<Event>, tail: seq<byte>, before: seq<Event>)
    requires Faithful(cs) && Entries(cs, events).Ok?
    ensures ParseEntries(cs, Entries(cs, events).value + tail, before)
         == ParseEntries(cs, tail, before + Trimmed(events))
    decreases |events|
  {
    hide ParseEntries, EntryBytes, TrimEnd, Trimmed;
    if events == [] {
      assert Entries(cs, events).value + tail == tail && before + Trimmed(events) == before;
    } else {
      var (name, count) := events[0];
      var stored := (TrimEnd(name), count);
      var encoded, rest := EncodeName(cs, name).value, Entries(cs, events[1..]).value;
      assert Entries(cs, events).value + tail == EntryBytes(encoded, count) + (rest + tail);
      EntryRead(cs, encoded, stored, rest + tail, before);
      EntriesBefore(cs, events[1..], tail, before + [stored]);
      TrimmedStep(events);
      assert before + [stored] + Trimmed(events[1..]) == before + ([stored] + Trimmed(events[1..]));
    }
  }

  // ---------------------------------------------------------------- registrations

  /** `next_event_id` after an allocation: `wrapping_add(1).max(1)`. */
  function NextId(id: u32): u32 {
    if (id + 1) as int % TWO_32 == 0 then 1 else id + 1
  }

  function IdAfter(id: u32, k: nat): u32
    decreases k
  {
    if k == 0 then id else IdAfter(NextId(id), k - 1)
  }

  lemma WrapOnce(a: nat)
    ensures (a + 4294967295) % 4294967295 == a % 4294967295
  {
  }

  /** Ids run through 1 to 2^32 - 1 and start again; zero never comes up, and no id comes up
      twice within 2^32 - 1 registrations. */
  lemma {:induction false} IdsCycle(id: u32, k: nat)
    requires id != 0
    ensures IdAfter(id, k) == 1 + (id - 1 + k) % (TWO_32 - 1)
    ensures 0 < k < TWO_32 - 1 ==> IdAfter(id, k) != id
    decreases k
  {
    if k != 0 {
      IdsCycle(NextId(id), k - 1);
      if id == TWO_32 - 1 {
        assert NextId(id) == 1;
        WrapOnce(k - 1);
      } else {
        assert NextId(id) == id + 1;
      }
      if k < TWO_32 - 1 && id - 1 + k >= TWO_32 - 1 {
        WrapOnce(id - 1 + k - (TWO_32 - 1));
      }
    }
  }

  // ---------------------------------------------------------------- notifications

  datatype Notification = Notification(eventId: u32, epb: seq<byte>)

  /** `parse_event_notification`. */
  function ReadNotification(s: seq<byte>): (p: Parsed<Notification>)
    ensures p.Failed? ==> !IsIncomplete(p.error)
  {
    var (op, s1) :- ReadU32(s);
    if op != Wire.OP_EVENT then Failed(Rejected(op), s1)
    else
      var (_, s2) :- ReadU32(s1);
      var (epb, s3) :- ReadWireBytes(s2);
      var (_, s4) :- ReadU32(s3);
      var (_, s5) :- ReadU32(s4);
      var (id, s6) :- ReadU32(s5);
      Done(Notification(id, epb), s6)
  }

  method ParseEventNotification(resp: Cursor) returns (r: Result<Notification, FbError>)
    modifies resp
    ensures Agrees(ReadNotification(old(resp.data)), r, resp.data)
  {
    hide ReadU32, ReadWireBytes;
    var opCode :- resp.GetU32();
    if opCode != Wire.OP_EVENT {
      return Err(Rejected(opCode));
    }
    var _ :- resp.GetU32();
    var epb :- resp.GetWireBytes();
    var _ :- resp.GetU32();
    var _ :- resp.GetU32();
    var eventId :- resp.GetU32();
    return Ok(Notification(eventId, epb));
  }

  /** The length the channel computes for a packet before it reads it. */
  function PacketLen(epbLen: nat): nat {
    12 + (epbLen + Padding(epbLen)) + 12
  }

  /** The packets of the channel. */
  datatype Packet = Dummy | Event(dbHandle: u32, epb: seq<byte>, ast: u32, arg: u32, id: u32) {
    predicate Fits() {
      Event? ==> |epb| <= MAX_EVENT_BLOCK_LEN
    }

    function Bytes(): seq<byte>
      requires Fits()
    {
      match this
      case Dummy => U32Bytes(Client.OP_DUMMY)
      case Event(db, epb, ast, arg, id) =>
        U32Bytes(Wire.OP_EVENT) + U32Bytes(db) + WireBytes(epb) + U32Bytes(ast) + U32Bytes(arg) + U32Bytes(id)
    }
  }

  /** The computed length is exactly the packet, and the parser consumes exactly the packet. */
  lemma PacketRoundTrip(p: Packet)
    requires p.Fits() && p.Event?
    ensures |p.Bytes()| == PacketLen(|p.epb|)
    ensures ReadNotification(p.Bytes()) == Done(Notification(p.id, p.epb), [])
  {
    hide ReadU32, U32Bytes, ReadWireBytes, WireBytes;
    var s5 := U32Bytes(p.id) + [];
    var s4 := U32Bytes(p.arg) + s5;
    var s3 := U32Bytes(p.ast) + s4;
    var s2 := WireBytes(p.epb) + s3;
    var s1 := U32Bytes(p.dbHandle) + s2;
    assert p.Bytes() == U32Bytes(Wire.OP_EVENT) + s1;
    U32RoundTrip(Wire.OP_EVENT, s1);
    U32RoundTrip(p.dbHandle, s2);
    WireBytesRoundTrip(p.epb, s3);
    U32RoundTrip(p.ast, s4);
    U32RoundTrip(p.arg, s5);
    U32RoundTrip(p.id, []);
  }

  // ---------------------------------------------------------------- the channel

  datatype Received =
    | Packet(packet: seq<byte>, rest: seq<byte>)
    | Closed
    | Refused(reason: FbError)

  /** The next event packet of the stream, keepalives skipped. A packet that is not an event, or
      announces too long a block, is refused. */
  function NextPacket(s: seq<byte>): (r: Received)
    ensures r.Packet? ==> |r.rest| < |s|
    ensures r.Refused? ==> !IsIncomplete(r.reason)
    decreases |s|
  {
    if |s| < 4 then Closed
    else
      var op := ReadU32(s).value;
      if op == Client.OP_DUMMY then NextPacket(s[4..])
      else if op == OP_EXIT || op == OP_DISCONNECT then Refused(Other("the server closed the event channel"))
      else if op != Wire.OP_EVENT then Refused(Rejected(op))
      else if |s| < 12 then Closed
      else
        var epbLen := ReadU32(s[8..]).value;
        if epbLen > MAX_EVENT_BLOCK_LEN then Refused(Other("event parameter block too long"))
        else if |s| < PacketLen(epbLen) then Closed
        else Packet(s[..PacketLen(epbLen)], s[PacketLen(epbLen)..])
  }

  /** Packets that end the channel: the two by which the server takes leave, all that are neither a
      keepalive nor an event, and events that announce a block longer than 65535 bytes. */
  lemma OtherPacketIsRefused(op: u32, dbHandle: u32, len: u32, more: seq<byte>)
    requires op != Client.OP_DUMMY
    ensures op == 2 || op == 6 ==>
              NextPacket(U32Bytes(op) + more) == Refused(Other("the server closed the event channel"))
    ensures op != 2 && op != 6 && op != Wire.OP_EVENT ==> NextPacket(U32Bytes(op) + more) == Refused(Rejected(op))
    ensures len > 65535 ==>
              NextPacket(U32Bytes(Wire.OP_EVENT) + (U32Bytes(dbHandle) + (U32Bytes(len) + more)))
              == Refused(Other("event parameter block too long"))
  {
    hide ReadU32, U32Bytes;
    U32RoundTrip(op, more);
    var tail := U32Bytes(len) + more;
    var s := U32Bytes(Wire.OP_EVENT) + (U32Bytes(dbHandle) + tail);
    U32RoundTrip(Wire.OP_EVENT, U32Bytes(dbHandle) + tail);
    U32RoundTrip(len, more);
    assert s[8..] == tail;
  }

  /** A packet that was split off always parses: its length is all the parser needs. */
  lemma PacketIsComplete(s: seq<byte>)
    ensures NextPacket(s).Packet? ==> ReadNotification(NextPacket(s).packet).Done?
    decreases |s|
  {
    hide ReadU32, ReadNotification;
    if |s| >= 4 && ReadU32(s).value == Client.OP_DUMMY {
      PacketIsComplete(s[4..]);
    } else if NextPacket(s).Packet? {
      EventParses(s, ReadU32(s[8..]).value);
    }
  }

  lemma EventParses(s: seq<byte>, epbLen: u32)
    requires |s| >= PacketLen(epbLen) && ReadU32(s).value == Wire.OP_EVENT && ReadU32(s[8..]).value == epbLen
    ensures ReadNotification(s[..PacketLen(epbLen)]).Done?
  {
    hide BigEndianValue;
    var packet, more := s[..PacketLen(epbLen)], s[PacketLen(epbLen)..];
    assert s == packet + more && s[8..] == packet[8..] + more;
    assert s[..4] == packet[..4] && s[8..][..4] == packet[8..][..4];
    assert packet[4..][4..] == packet[8..];
  }

  lemma NextPacketIs(p: Packet, more: seq<byte>)
    requires p.Fits()
    ensures p.Dummy? ==> NextPacket(p.Bytes() + more) == NextPacket(more)
    ensures p.Event? ==> NextPacket(p.Bytes() + more) == Received.Packet(p.Bytes(), more)
  {
    hide ReadU32, U32Bytes, WireBytes;
    var s := p.Bytes() + more;
    if p.Dummy? {
      U32RoundTrip(Client.OP_DUMMY, more);
      assert s[4..] == more;
    } else {
      PacketRoundTrip(p);
      EventLayout(p, more);
      assert s[..PacketLen(|p.epb|)] == p.Bytes() && s[PacketLen(|p.epb|)..] == more;
    }
  }

  /** The two numbers the channel looks at before it takes a packet. */
  lemma EventLayout(p: Packet, more: seq<byte>)
    requires p.Event? && p.Fits()
    ensures var s := p.Bytes() + more;
            && |s| >= 12
            && ReadU32(s).Done? && ReadU32(s).value == Wire.OP_EVENT
            && ReadU32(s[8..]).Done? && ReadU32(s[8..]).value == |p.epb|
  {
    hide ReadU32, U32Bytes, WireBytes;
    var after := U32Bytes(p.ast) + U32Bytes(p.arg) + U32Bytes(p.id) + more;
    var tail := WireBytes(p.epb) + after;
    var s := p.Bytes() + more;
    assert s == U32Bytes(Wire.OP_EVENT) + (U32Bytes(p.dbHandle) + tail);
    U32RoundTrip(Wire.OP_EVENT, U32Bytes(p.dbHandle) + tail);
    assert s[8..] == tail;
    BlockLength(p.epb, after);
  }

  lemma BlockLength(epb: seq<byte>, more: seq<byte>)
    requires FitsWire(epb)
    ensures ReadU32(WireBytes(epb) + more).Done? && ReadU32(WireBytes(epb) + more).value == |epb|
  {
    hide ReadU32, U32Bytes;
    var rest := epb + Zeros(Padding(|epb|)) + more;
    assert WireBytes(epb) + more == U32Bytes(|epb|) + rest;
    U32RoundTrip(|epb|, rest);
  }

  ghost predicate PacketsFit(packets: seq<Packet>) {
    forall i :: 0 <= i < |packets| ==> packets[i].Fits()
  }

  ghost function PacketsBytes(packets: seq<Packet>): seq<byte>
    requires PacketsFit(packets)
  {
    if packets == [] then [] else packets[0].Bytes() + PacketsBytes(packets[1..])
  }

  /** What `recv_event` makes of the whole stream: the block of the event with the id, and what
      follows it. */
  function RecvSpec(s: seq<byte>, eventId: u32): Parsed<seq<byte>>
    decreases |s|
  {
    match NextPacket(s)
    case Closed => Incomplete
    case Refused(e) => Failed(e, s)
    case Packet(packet, rest) =>
      match ReadNotification(packet)
      case Incomplete => Incomplete
      case Failed(e, _) => Failed(e, rest)
      case Done(n, _) => if n.eventId == eventId then Done(n.epb, rest) else RecvSpec(rest, eventId)
  }

  /** Events are told apart by their id: with any keepalives and any events of other ids in
      front, the block of the first event with the id is returned, and the stream is left at
      the packet behind it. */
  lemma {:induction false} FirstEventIsReceived(packets: seq<Packet>, k: nat)
    requires PacketsFit(packets) && k < |packets| && packets[k].Event?
    requires forall i :: 0 <= i < k && packets[i].Event? ==> packets[i].id != packets[k].id
    ensures RecvSpec(PacketsBytes(packets), packets[k].id) == Done(packets[k].epb, PacketsBytes(packets[k + 1..]))
    decreases |packets|
  {
    hide NextPacket, ReadNotification, Packet.Bytes;
    var more := PacketsBytes(packets[1..]);
    NextPacketIs(packets[0], more);
    if packets[0].Event? {
      PacketRoundTrip(packets[0]);
    }
    if k > 0 {
      FirstEventIsReceived(packets[1..], k - 1);
      assert packets[1..][k..] == packets[k + 1..];
    }
  }

  /** Keepalives and events of other ids do not matter: what comes of the stream is what comes of
      it behind them, and there a refused packet is an error and a cut one not enough. */
  lemma {:induction false} OthersArePassedOver(packets: seq<Packet>, tail: seq<byte>, id: u32)
    requires PacketsFit(packets)
    requires forall i :: 0 <= i < |packets| && packets[i].Event? ==> packets[i].id != id
    ensures var all, behind := RecvSpec(PacketsBytes(packets) + tail, id), RecvSpec(tail, id);
            && (behind.Failed? ==> all.Failed? && all.error == behind.error)
            && (!behind.Failed? ==> all == behind)
    ensures NextPacket(tail).Closed? ==> RecvSpec(tail, id) == Incomplete
    ensures NextPacket(tail).Refused? ==> RecvSpec(tail, id) == Failed(NextPacket(tail).reason, tail)
    decreases |packets|
  {
    hide NextPacket, ReadNotification, Packet.Bytes;
    if packets == [] {
      assert PacketsBytes(packets) + tail == tail;
    } else {
      var more := PacketsBytes(packets[1..]) + tail;
      assert PacketsBytes(packets) + tail == packets[0].Bytes() + more;
      NextPacketIs(packets[0], more);
      if packets[0].Event? {
        PacketRoundTrip(packets[0]);
      }
      OthersArePassedOver(packets[1..], tail, id);
    }
  }

  class EventChannel {
    const socket: Socket
    const charset: Charset
    var buff: seq<byte>

    constructor (socket: Socket, charset: Charset)
      ensures this.socket == socket && this.charset == charset && buff == []
    {
      this.socket := socket;
      this.charset := charset;
      buff := [];
    }

    ghost function Stream(): seq<byte>
      reads this, socket
    {
      buff + socket.inbox
    }

    /** `fill`: reads until enough bytes are there; it fails exactly when the peer has sent
        less. No byte is lost. */
    method Fill(len: nat) returns (ok: bool)
      modifies this`buff, socket
      ensures Stream() == old(Stream())
      ensures ok <==> |old(Stream())| >= len
      ensures ok ==> |buff| >= len
    {
      while |buff| < len
        invariant Stream() == old(Stream())
        decreases |socket.inbox|
      {
        var chunk := socket.Read(512);
        if chunk == [] {
          assert socket.inbox == [];
          return false;
        }
        buff := buff + chunk;
      }
      return true;
    }

    /** `recv_notification`, up to parsing the packet: its bytes are split off. */
    method RecvPacket() returns (r: Result<seq<byte>, FbError>)
      modifies this`buff, socket
      ensures match NextPacket(old(Stream()))
              case Packet(packet, rest) => r == Ok(packet) && Stream() == rest
              case Closed => r == Err(ConnectionClosed)
              case Refused(reason) => r == Err(reason)
    {
      hide ReadU32;
      while true
        invariant NextPacket(Stream()) == NextPacket(old(Stream()))
        decreases |Stream()|
      {
        ghost var s := Stream();
        var ok := Fill(4);
        if !ok {
          return Err(ConnectionClosed);
        }
        PeekIsEnough(buff, socket.inbox, 0);
        var opCode := ReadU32(buff).value;
        if opCode == Client.OP_DUMMY {
          buff := buff[4..];
          assert Stream() == s[4..];
          continue;
        }
        if opCode == OP_EXIT || opCode == OP_DISCONNECT {
          return Err(Other("the server closed the event channel"));
        }
        if opCode != Wire.OP_EVENT {
          return Err(Rejected(opCode));
        }
        ok := Fill(12);
        if !ok {
          return Err(ConnectionClosed);
        }
        PeekIsEnough(buff, socket.inbox, 8);
        var epbLen := ReadU32(buff[8..]).value;
        if epbLen > MAX_EVENT_BLOCK_LEN {
          return Err(Other("event parameter block too long"));
        }
        var len := PacketLen(epbLen);
        ok := Fill(len);
        if !ok {
          return Err(ConnectionClosed);
        }
        var packet := buff[..len];
        assert packet == s[..len] && s[len..] == buff[len..] + socket.inbox;
        buff := buff[len..];
        return Ok(packet);
      }
    }

    /** `recv_event`. The counters are those of the first event with the id; whatever the
        chunks, the stream is left behind that event. */
    method RecvEvent(eventId: u32) returns (r: Result<Result<seq<Event>, EventError>, FbError>)
      modifies this`buff, socket
      ensures match RecvSpec(old(Stream()), eventId)
              case Done(epb, rest) => r == Ok(ParseSpec(charset, epb)) && Stream() == rest
              case Incomplete => r == Err(ConnectionClosed)
              case Failed(e, _) => r == Err(e)
    {
      hide NextPacket, ReadNotification;
      while true
        invariant RecvSpec(Stream(), eventId) == RecvSpec(old(Stream()), eventId)
        decreases |Stream()|
      {
        PacketIsComplete(Stream());
        var bytes :- RecvPacket();
        var packet := new Cursor(bytes);
        var notification := ParseEventNotification(packet);
        if notification.value.eventId == eventId {
          var events := ParseEventBlock(charset, notification.value.epb);
          return Ok(events);
        }
      }
    }
  }

  /** What the buffer shows at an offset is what the stream shows there. */
  lemma PeekIsEnough(buff: seq<byte>, unread: seq<byte>, offset: nat)
    requires offset + 4 <= |buff|
    ensures ReadU32((buff + unread)[offset..]).value == ReadU32(buff[offset..]).value
    ensures (buff + unread)[0..] == buff + unread && buff[0..] == buff
  {
    hide ReadU32;
    assert (buff + unread)[offset..] == buff[offset..] + unread;
    U32Stable(buff[offset..], unread);
  }
}
