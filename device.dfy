/**
 * The Meshtastic device layer: the schemas of the radio's messages, the stream framing, the
 * channel and node lists a `MeshtDevice` keeps from what the radio reports, and the messages it
 * builds to send. The transport is left out: `recv` takes the bytes the transport returned, and
 * each `send_*` gives back the bytes it would hand to the transport.
 */
module Device {
  import opened Bytes
  import opened Errors
  import opened Values
  import opened Schema
  import Encoder
  import Decoder
  import PyStr
  import Utf8

  // ---------------------------------------------------------------- the schemas

  /** (type, name, number). */
  function ScalarItem(t: string, name: string, n: int): Item
  {
    Tuple([PStr(t), PStr(name), PNum(n)])
  }

  /** (subschema, name, number). */
  function MessageItem(sub: seq<Item>, name: string, n: int): Item
  {
    Tuple([PItems(sub), PStr(name), PNum(n)])
  }

  /** ("oneof", group, alternatives). */
  function OneofItem(group: string, alts: seq<Item>): Item
  {
    Tuple([PStr("oneof"), PStr(group), PItems(alts)])
  }

  const DATA_SCHEMA: seq<Item> := [
    ScalarItem("varint", "portnum", 1),
    ScalarItem("bytes", "payload", 2),
    ScalarItem("bool", "want_response", 3),
    ScalarItem("fixed32", "dest", 4),
    ScalarItem("fixed32", "source", 5),
    ScalarItem("fixed32", "request_id", 6),
    ScalarItem("fixed32", "reply_id", 7),
    ScalarItem("fixed32", "emoji", 8),
    ScalarItem("uint32", "bitfield", 9)
  ]

  const MESHPACKET_SCHEMA: seq<Item> := [
    ScalarItem("fixed32", "from", 1),
    ScalarItem("fixed32", "to", 2),
    ScalarItem("uint32", "channel", 3),
    OneofItem("payload_variant", [
      MessageItem(DATA_SCHEMA, "decoded", 4),
      ScalarItem("bytes", "encrypted", 5)
    ]),
    ScalarItem("fixed32", "id", 6),
    ScalarItem("fixed32", "rx_time", 7),
    ScalarItem("float", "rx_snr", 8),
    ScalarItem("uint32", "hop_limit", 9),
    ScalarItem("bool", "want_ack", 10),
    ScalarItem("int32", "priority", 11),
    ScalarItem("int32", "rx_rssi", 12),
    ScalarItem("bool", "via_mqtt", 14),
    ScalarItem("uint32", "hop_start", 15),
    ScalarItem("bytes", "public_key", 16),
    ScalarItem("bool", "pki_encrypted", 17),
    ScalarItem("uint32", "next_hop", 18),
    ScalarItem("uint32", "relay_node", 19),
    ScalarItem("uint32", "tx_after", 20)
  ]

  const CHANNEL_SETTINGS_SCHEMA: seq<Item> := [
    ScalarItem("uint32", "channel_num", 1),
    ScalarItem("string", "name", 3)
  ]

  const CHANNEL_SCHEMA: seq<Item> := [
    ScalarItem("int32", "index", 1),
    MessageItem(CHANNEL_SETTINGS_SCHEMA, "settings", 2),
    ScalarItem("int32", "role", 3)
  ]

  const USER_SCHEMA: seq<Item> := [
    ScalarItem("string", "id", 1),
    ScalarItem("string", "long_name", 2),
    ScalarItem("string", "short_name", 3),
    ScalarItem("int32", "hw_model", 5),
    ScalarItem("bool", "is_licensed", 6),
    ScalarItem("int32", "role", 7),
    ScalarItem("bytes", "public_key", 8)
  ]

  const ENVIRONMENTMETRICS_SCHEMA: seq<Item> := [
    ScalarItem("float", "temperature", 1),
    ScalarItem("float", "relative_humidity", 2),
    ScalarItem("float", "barometric_pressure", 3),
    ScalarItem("float", "gas_resistance", 4),
    ScalarItem("float", "voltage", 5),
    ScalarItem("float", "current", 6),
    ScalarItem("uint32", "iaq", 7),
    ScalarItem("float", "distance", 8),
    ScalarItem("float", "lux", 9),
    ScalarItem("float", "white_lux", 10),
    ScalarItem("float", "ir_lux", 11),
    ScalarItem("float", "uv_lux", 12),
    ScalarItem("uint32", "wind_direction", 13),
    ScalarItem("float", "wind_speed", 14),
    ScalarItem("float", "weight", 15),
    ScalarItem("float", "wind_gust", 16),
    ScalarItem("float", "wind_lull", 17),
    ScalarItem("float", "radiation", 18),
    ScalarItem("float", "rainfall_1h", 19),
    ScalarItem("float", "rainfall_24h", 20),
    ScalarItem("uint32", "soil_moisture", 21),
    ScalarItem("float", "soil_temperature", 22)
  ]

  const DEVICEMETRICS_SCHEMA: seq<Item> := [
    ScalarItem("uint32", "battery_level", 1),
    ScalarItem("float", "voltage", 2)
  ]

  const TELEMETRY_SCHEMA: seq<Item> := [
    ScalarItem("fixed32", "time", 1),
    OneofItem("variant", [
      MessageItem(DEVICEMETRICS_SCHEMA, "device_metrics", 2),
      MessageItem(ENVIRONMENTMETRICS_SCHEMA, "environment_metrics", 3)
    ])
  ]

  const MYNODEINFO_SCHEMA: seq<Item> := [
    ScalarItem("uint32", "my_node_num", 1)
  ]

  const NODEINFO_SCHEMA: seq<Item> := [
    ScalarItem("uint32", "num", 1),
    MessageItem(USER_SCHEMA, "user", 2),
    ScalarItem("float", "snr", 4),
    ScalarItem("fixed32", "last_heard", 5),
    MessageItem(DEVICEMETRICS_SCHEMA, "device_metrics", 6),
    ScalarItem("uint32", "hops_away", 9)
  ]

  const LORACONFIG_SCHEMA: seq<Item> := [
    ScalarItem("bool", "use_preset", 1),
    ScalarItem("int32", "modem_preset", 2),
    ScalarItem("int32", "region", 7)
  ]

  const CONFIG_SCHEMA: seq<Item> := [
    OneofItem("variant", [
      MessageItem(LORACONFIG_SCHEMA, "lora", 6)
    ])
  ]

  const FROMRADIO_SCHEMA: seq<Item> := [
    ScalarItem("uint32", "id", 1),
    OneofItem("payload_variant", [
      MessageItem(MESHPACKET_SCHEMA, "packet", 2),
      MessageItem(MYNODEINFO_SCHEMA, "my_info", 3),
      MessageItem(NODEINFO_SCHEMA, "node_info", 4),
      MessageItem(CONFIG_SCHEMA, "config", 5),
      ScalarItem("uint32", "config_complete_id", 7),
      MessageItem(CHANNEL_SCHEMA, "channel", 10)
    ])
  ]

  const TORADIO_SCHEMA: seq<Item> := [
    MessageItem(MESHPACKET_SCHEMA, "packet", 1),
    ScalarItem("uint32", "want_config_id", 3),
    MessageItem(NODEINFO_SCHEMA, "node_info", 4)
  ]

  /** The Meshtastic port numbers and their names. */
  const PORTNUMS: map<int, string> := map[
    0 := "UNKNOWN_APP", 1 := "TEXT_MESSAGE_APP", 2 := "REMOTE_HARDWARE_APP", 3 := "POSITION_APP",
    4 := "NODEINFO_APP", 5 := "ROUTING_APP", 6 := "ADMIN_APP", 7 := "TEXT_MESSAGE_COMPRESSED_APP",
    8 := "WAYPOINT_APP", 9 := "AUDIO_APP", 10 := "DETECTION_SENSOR_APP", 11 := "ALERT_APP",
    32 := "REPLY_APP", 33 := "IP_TUNNEL_APP", 34 := "PAXCOUNTER_APP", 64 := "SERIAL_APP",
    65 := "STORE_FORWARD_APP", 66 := "RANGE_TEST_APP", 67 := "TELEMETRY_APP", 68 := "ZPS_APP",
    69 := "SIMULATOR_APP", 70 := "TRACEROUTE_APP", 71 := "NEIGHBORINFO_APP", 72 := "ATAK_PLUGIN",
    73 := "MAP_REPORT_APP", 74 := "POWERSTRESS_APP", 76 := "RETICULUM_TUNNEL_APP",
    256 := "PRIVATE_APP", 257 := "ATAK_FORWARDER", 511 := "MAX"
  ]

  /** `{v: k for k, v in PORTNUMS.items()}`, for the name send_telemetry looks up. */
  function NamesToPortnums(name: string): (r: Option<int>)
    ensures r.Some? ==> r.value in PORTNUMS && PORTNUMS[r.value] == name
  {
    if name == "TELEMETRY_APP" then Some(67) else None
  }

  const BROADCAST: int := 0xFFFF_FFFF

  // ---------------------------------------------------------------- framing

  /** `_send_framed(data)`: magic 0x94 0xC3, then the length as two big-endian bytes (cut to
      16 bits), then the data. */
  function Frame(data: seq<byte>): (r: seq<byte>)
    ensures |r| == 4 + |data| && r[0] == 0x94 && r[1] == 0xC3 && r[4..] == data
    ensures r[2] as int * 256 + r[3] as int == |data| % 0x1_0000
  {
    SplitLength(|data|);
    [0x94, 0xC3, (|data| / 256) % 256, |data| % 256] + data
  }

  /** The two length bytes of a frame header hold the length modulo 2^16. */
  lemma SplitLength(n: nat)
    ensures (n / 256) % 256 * 256 + n % 256 == n % 0x1_0000
  {
    var q := n / 0x1_0000;
    var r := n % 0x1_0000;
    var a := r / 256;
    var b := r % 256;
    assert r == a * 256 + b;
    assert n == (q * 256 + a) * 256 + b;
    assert n / 256 == q * 256 + a;
    assert n % 256 == b;
    assert (q * 256 + a) % 256 == a;
  }

  /** The unframing in `recv`: nothing for fewer than 4 bytes; with the magic header, the
      bytes the header's length covers (as many as there are); otherwise everything. */
  function Unframe(raw: seq<byte>): (r: Option<seq<byte>>)
    ensures |raw| < 4 <==> r.None?
    ensures r.Some? && !(raw[0] == 0x94 && raw[1] == 0xC3) ==> r.value == raw
  {
    if |raw| < 4 then None
    else if raw[0] == 0x94 && raw[1] == 0xC3 then
      var length := raw[2] as int * 256 + raw[3] as int;
      Some(raw[4..Min(4 + length, |raw|)])
    else Some(raw)
  }

  function Min(a: int, b: int): int { if a <= b then a else b }

  /** Unframing a frame gives the data back, cut to the 16-bit length the header can hold. */
  lemma UnframeFrame(data: seq<byte>)
    ensures Unframe(Frame(data)) == Some(data[..|data| % 0x1_0000])
    ensures |data| < 0x1_0000 ==> Unframe(Frame(data)) == Some(data)
  {
    var f := Frame(data);
    var n := |data| % 0x1_0000;
    assert f[4..4 + n] == data[..n];
    if |data| < 0x1_0000 {
      assert n == |data|;
      assert data[..n] == data;
    }
  }

  // ---------------------------------------------------------------- Python values as the device reads them

  /** Python's `==` on the values a message holds: ints and bools compare as numbers. */
  predicate Equal(a: Value, b: Value)
  {
    if (a.VInt? || a.VBool?) && (b.VInt? || b.VBool?) then IntOf(a).value == IntOf(b).value else a == b
  }

  /** `d.get(k, default)`. */
  function GetOr(d: seq<Entry>, k: string, default: Value): (r: Value)
    ensures Name(k) !in Keys(d) ==> r == default
    ensures Name(k) in Keys(d) ==> Some(r) == Lookup(d, Name(k))
  {
    match Lookup(d, Name(k))
    case None => default
    case Some(v) => v
  }

  /** `v != 0`: only a number can equal 0. */
  predicate NonZero(v: Value)
  {
    if v.VInt? || v.VBool? || v.VFloat? then Truthy(v) else true
  }

  /** `str(v)` in the f-string for a default channel name; only an index `int()` accepts is
      ever stored, and for the others the name is not used. */
  function StrOf(v: Value): string
  {
    match v
    case VInt(n) => PyStr.IntToString(n)
    case VBool(b) => if b then "True" else "False"
    case VStr(s) => s
    case VBytes(bs) => PyStr.BytesRepr(bs)
    case _ => ""
  }

  // ---------------------------------------------------------------- channels and nodes

  /** `Channel(index, name, role)` as constructed: index and role are converted by `int()`. */
  datatype Channel = Channel(index: int, name: Value, role: int)

  datatype Node = Node(index: int, shortName: Value, longName: Value, num: Value, id: Value)

  /** `Channel(idx, name, role)`: `int(index)` and `int(role or 0)`, which may raise. */
  function NewChannel(idx: Value, name: Value, role: Value): (r: Result<Channel>)
    ensures r.Ok? <==> IntOf(idx).Ok? && (!Truthy(role) || IntOf(role).Ok?)
    ensures r.Ok? ==> r.value.index == IntOf(idx).value && r.value.name == name
    ensures r.Ok? ==> r.value.role == if Truthy(role) then IntOf(role).value else 0
  {
    match IntOf(idx)
    case Err(e) => Err(e)
    case Ok(i) =>
      if !Truthy(role) then Ok(Channel(i, name, 0))
      else match IntOf(role)
        case Err(e) => Err(e)
        case Ok(n) => Ok(Channel(i, name, n))
  }

  /** `[c for c in channels if c.index != idx]`. */
  function WithoutIndex(cs: seq<Channel>, idx: Value): (r: seq<Channel>)
    ensures |r| <= |cs|
    ensures forall c :: c in r <==> c in cs && !Equal(VInt(c.index), idx)
  {
    if cs == [] then []
    else (if Equal(VInt(cs[0].index), idx) then [] else [cs[0]]) + WithoutIndex(cs[1..], idx)
  }

  /** `[n for n in nodes if n.num != num]`. */
  function WithoutNum(ns: seq<Node>, num: Value): (r: seq<Node>)
    ensures |r| <= |ns|
    ensures forall n :: n in r <==> n in ns && !Equal(n.num, num)
  {
    if ns == [] then []
    else (if Equal(ns[0].num, num) then [] else [ns[0]]) + WithoutNum(ns[1..], num)
  }

  /** `channels.sort(key=lambda x: x.index)`: a stable sort by index, here insertion sort,
      which takes the elements from the left. */
  function SortByIndex(cs: seq<Channel>): seq<Channel>
  {
    if cs == [] then [] else Insert(SortByIndex(cs[..|cs| - 1]), cs[|cs| - 1])
  }

  /** c placed after every element whose index is not above its own. */
  function Insert(s: seq<Channel>, c: Channel): (r: seq<Channel>)
    ensures multiset(r) == multiset(s) + multiset{c}
  {
    if s == [] || s[|s| - 1].index <= c.index then s + [c]
    else
      SplitLast(s);
      Insert(s[..|s| - 1], c) + [s[|s| - 1]]
  }

  predicate Sorted(cs: seq<Channel>)
  {
    forall i, j :: 0 <= i < j < |cs| ==> cs[i].index <= cs[j].index
  }

  /** Sorted, one channel per index. */
  predicate StrictlySorted(cs: seq<Channel>)
  {
    forall i, j :: 0 <= i < j < |cs| ==> cs[i].index < cs[j].index
  }

  /** The channel table: sorted, one channel per index, and no disabled channel (role 0). */
  predicate ChannelsValid(cs: seq<Channel>)
  {
    StrictlySorted(cs) && forall c :: c in cs ==> c.role != 0
  }

  /** One node per `num`. */
  predicate DistinctNums(ns: seq<Node>)
  {
    forall i, j :: 0 <= i < j < |ns| ==> !Equal(ns[i].num, ns[j].num)
  }

  /** What a store did: the new value of the list or field, and whether it raised. */
  datatype Stored<T> = Stored(value: T, raised: bool)

  /** `_maybe_store_channel(from_radio)`. A `.get` on a value that is not a dict, or an
      `int()` that fails, raises; the filter has already been applied when `Channel()` raises. */
  function StoreChannelSpec(cs: seq<Channel>, fr: seq<Entry>): Stored<seq<Channel>>
  {
    match Lookup(fr, Name("channel"))
    case None => Stored(cs, false)
    case Some(ch) =>
      if !Truthy(ch) then Stored(cs, false)
      else if !ch.VDict? then Stored(cs, true)
      else
        var idx := GetOr(ch.entries, "index", VInt(0));
        var settings := GetOr(ch.entries, "settings", VDict([]));
        if !settings.VDict? then Stored(cs, true)
        else
          var name := GetOr(settings.entries, "name", VStr("CH_" + StrOf(idx)));
          UpsertChannel(cs, idx, name, GetOr(ch.entries, "role", VInt(0)))
  }

  /** The last steps of `_maybe_store_channel` as written: drop the channels whose index
      equals `idx` as Python compares them, then, unless the role equals 0, add the new channel
      and sort. */
  function UpsertChannelAsWritten(cs: seq<Channel>, idx: Value, name: Value, role: Value): Stored<seq<Channel>>
  {
    var kept := WithoutIndex(cs, idx);
    if !NonZero(role) then Stored(kept, false)
    else
      match NewChannel(idx, name, role)
      case Err(_) => Stored(kept, true)
      case Ok(c) => Stored(SortByIndex(kept + [c]), false)
  }

  /** The index `i` of a stored channel is `idx`: equal as Python compares them, or equal to
      `int(idx)`. */
  predicate SameIndex(i: int, idx: Value)
  {
    Equal(VInt(i), idx) || IntOf(idx) == Ok(i)
  }

  /** The channels whose index is not `idx`, compared as stored and after `int(idx)`. */
  function WithoutChannel(cs: seq<Channel>, idx: Value): (r: seq<Channel>)
    ensures forall c :: c in r <==> c in cs && !SameIndex(c.index, idx)
  {
    match IntOf(idx)
    case Ok(i) => WithoutIndex(WithoutIndex(cs, idx), VInt(i))
    case Err(_) => WithoutIndex(cs, idx)
  }

  /** The last steps of `_maybe_store_channel` as intended: drop the channels with this index,
      also when it arrives as a str or bytes numeral, and add the new channel, sorted, unless
      its role as stored, `int(role or 0)`, is 0. */
  function UpsertChannel(cs: seq<Channel>, idx: Value, name: Value, role: Value): Stored<seq<Channel>>
  {
    var kept := WithoutChannel(cs, idx);
    if !NonZero(role) then Stored(kept, false)
    else
      match NewChannel(idx, name, role)
      case Err(_) => Stored(kept, true)
      case Ok(c) => if c.role == 0 then Stored(kept, false) else Stored(SortByIndex(kept + [c]), false)
  }

  /** `_maybe_store_node(from_radio)`: the entry with this `num` goes, a new one is appended. */
  function StoreNodeSpec(ns: seq<Node>, fr: seq<Entry>): Stored<seq<Node>>
  {
    match Lookup(fr, Name("node_info"))
    case None => Stored(ns, false)
    case Some(ni) =>
      if !Truthy(ni) then Stored(ns, false)
      else if !ni.VDict? then Stored(ns, true)
      else
        var num := GetOr(ni.entries, "num", VInt(0));
        var user := GetOr(ni.entries, "user", VDict([]));
        if !user.VDict? then Stored(ns, true)
        else
          var kept := WithoutNum(ns, num);
          Stored(kept + [NodeOf(kept, num, user.entries)], false)
  }

  /** `Node(len(self.nodes), sn, ln, num, idx)` with the defaults for a missing user field. */
  function NodeOf(kept: seq<Node>, num: Value, user: seq<Entry>): Node
  {
    Node(|kept|, GetOr(user, "short_name", VStr("???")), GetOr(user, "long_name", VStr("Desconocido")),
         num, GetOr(user, "id", VStr("???")))
  }

  /** `_maybe_store_my_node(from_radio)`. */
  function StoreMyNodeSpec(m: Option<Value>, fr: seq<Entry>): Stored<Option<Value>>
  {
    match Lookup(fr, Name("my_info"))
    case None => Stored(m, false)
    case Some(mi) =>
      if !Truthy(mi) then Stored(m, false)
      else if !mi.VDict? then Stored(m, true)
      else Stored(Some(GetOr(mi.entries, "my_node_num", VInt(0))), false)
  }

  // ---------------------------------------------------------------- what the stores promise

  lemma {:induction false} WithoutIndexSorted(cs: seq<Channel>, idx: Value)
    requires StrictlySorted(cs)
    ensures StrictlySorted(WithoutIndex(cs, idx))
  {
    if cs != [] {
      WithoutIndexSorted(cs[1..], idx);
      var rest := WithoutIndex(cs[1..], idx);
      if !Equal(VInt(cs[0].index), idx) {
        TailAbove(cs);
        ConsSorted(cs[0], rest);
      } else {
        assert WithoutIndex(cs, idx) == rest;
      }
    }
  }

  /** In a list sorted with one channel per index, the first index is below all the others. */
  lemma TailAbove(cs: seq<Channel>)
    requires cs != [] && StrictlySorted(cs)
    ensures forall c :: c in cs[1..] ==> cs[0].index < c.index
  {
    forall c | c in cs[1..] ensures cs[0].index < c.index {
      var k :| 0 <= k < |cs[1..]| && cs[1..][k] == c;
      assert cs[k + 1] == c;
    }
  }

  lemma ConsSorted(x: Channel, rest: seq<Channel>)
    requires StrictlySorted(rest) && forall c :: c in rest ==> x.index < c.index
    ensures StrictlySorted([x] + rest)
  {
    var r := [x] + rest;
    forall i, j | 0 <= i < j < |r| ensures r[i].index < r[j].index {
      assert r[j] == rest[j - 1];
      if i > 0 {
        assert r[i] == rest[i - 1];
      }
    }
  }

  lemma {:induction false} WithoutNumDistinct(ns: seq<Node>, num: Value)
    requires DistinctNums(ns)
    ensures DistinctNums(WithoutNum(ns, num))
  {
    if ns != [] {
      WithoutNumDistinct(ns[1..], num);
      var rest := WithoutNum(ns[1..], num);
      forall n | n in rest ensures !Equal(ns[0].num, n.num) {
        var k :| 0 <= k < |ns[1..]| && ns[1..][k] == n;
        assert ns[k + 1] == n;
      }
    }
  }

  /** Sorting a sorted list changes nothing. */
  lemma {:induction false} SortSorted(cs: seq<Channel>)
    requires Sorted(cs)
    ensures SortByIndex(cs) == cs
  {
    if cs != [] {
      var init := cs[..|cs| - 1];
      assert Sorted(init);
      SortSorted(init);
      SplitLast(cs);
    }
  }

  /** A channel with a fresh index inserted into a sorted list leaves it sorted. */
  lemma {:induction false} InsertSorted(s: seq<Channel>, c: Channel)
    requires StrictlySorted(s) && forall x :: x in s ==> x.index != c.index
    ensures StrictlySorted(Insert(s, c))
  {
    if s == [] || s[|s| - 1].index <= c.index {
    } else {
      var init := s[..|s| - 1];
      var last := s[|s| - 1];
      assert StrictlySorted(init);
      InsertSorted(init, c);
      var r := Insert(init, c);
      forall x | x in r ensures x.index < last.index {
        assert x in multiset(r);
        if x != c {
          assert x in multiset(init);
          var k :| 0 <= k < |init| && init[k] == x;
          assert s[k] == x;
        }
      }
    }
  }

  /** The sort puts the channels in index order and keeps every one of them. */
  lemma {:induction false} SortSpec(cs: seq<Channel>)
    ensures Sorted(SortByIndex(cs)) && multiset(SortByIndex(cs)) == multiset(cs)
  {
    if cs != [] {
      var init := cs[..|cs| - 1];
      SortSpec(init);
      InsertKeepsSorted(SortByIndex(init), cs[|cs| - 1]);
      SplitLast(cs);
    }
  }

  lemma {:induction false} InsertKeepsSorted(s: seq<Channel>, c: Channel)
    requires Sorted(s)
    ensures Sorted(Insert(s, c))
  {
    if s == [] || s[|s| - 1].index <= c.index {
    } else {
      var init := s[..|s| - 1];
      var last := s[|s| - 1];
      assert Sorted(init);
      InsertKeepsSorted(init, c);
      var r := Insert(init, c);
      forall x | x in r ensures x.index <= last.index {
        assert x in multiset(r);
        if x != c {
          assert x in multiset(init);
          var k :| 0 <= k < |init| && init[k] == x;
          assert s[k] == x;
        }
      }
    }
  }

  /** Dropping channels keeps the table valid. */
  lemma WithoutChannelValid(cs: seq<Channel>, idx: Value)
    requires ChannelsValid(cs)
    ensures ChannelsValid(WithoutChannel(cs, idx))
  {
    WithoutIndexSorted(cs, idx);
    if IntOf(idx).Ok? {
      WithoutIndexSorted(WithoutIndex(cs, idx), VInt(IntOf(idx).value));
    }
  }

  /**
   * The channel upsert: a role that is 0 as stored leaves no channel with the index; any
   * other leaves exactly one, the new one; channels with other indices stay; the table stays
   * sorted, with one channel per index and none disabled, also when `Channel()` raises.
   */
  lemma UpsertChannelSpec(cs: seq<Channel>, idx: Value, name: Value, role: Value)
    requires ChannelsValid(cs)
    ensures var r := UpsertChannel(cs, idx, name, role);
      var nc := NewChannel(idx, name, role);
      && ChannelsValid(r.value)
      && (r.raised <==> NonZero(role) && nc.Err?)
      && (forall c :: c in r.value && !SameIndex(c.index, idx) <==> c in cs && !SameIndex(c.index, idx))
      && (!(NonZero(role) && nc.Ok? && nc.value.role != 0) ==> forall c :: c in r.value ==> !SameIndex(c.index, idx))
      && (NonZero(role) && nc.Ok? && nc.value.role != 0 ==>
            nc.value in r.value && forall x :: x in r.value && SameIndex(x.index, idx) ==> x == nc.value)
  {
    var kept := WithoutChannel(cs, idx);
    WithoutChannelValid(cs, idx);
    var nc := NewChannel(idx, name, role);
    if NonZero(role) && nc.Ok? && nc.value.role != 0 {
      assert SameIndex(nc.value.index, idx);
      InsertFresh(kept, nc.value);
      var r := SortByIndex(kept + [nc.value]);
      assert forall x :: x in r ==> x.role != 0;
    }
  }

  /** For an index and a role that are ints or bools, which is how the radio sends them, the
      upsert as written and as intended do the same. */
  lemma UpsertAsWrittenAgrees(cs: seq<Channel>, idx: Value, name: Value, role: Value)
    requires (idx.VInt? || idx.VBool?) && (role.VInt? || role.VBool?)
    ensures UpsertChannelAsWritten(cs, idx, name, role) == UpsertChannel(cs, idx, name, role)
  {
    WithoutIndexTwice(cs, idx);
  }

  /** Filtering by the converted index after filtering by an int or bool index drops nothing more. */
  lemma {:induction false} WithoutIndexTwice(cs: seq<Channel>, idx: Value)
    requires idx.VInt? || idx.VBool?
    ensures WithoutChannel(cs, idx) == WithoutIndex(cs, idx)
  {
    var i := IntOf(idx).value;
    assert forall c: Channel :: Equal(VInt(c.index), idx) <==> c.index == i;
    WithoutIndexNone(WithoutIndex(cs, idx), VInt(i));
  }

  /** A filter that matches nothing keeps the list. */
  lemma {:induction false} WithoutIndexNone(cs: seq<Channel>, idx: Value)
    requires forall c :: c in cs ==> !Equal(VInt(c.index), idx)
    ensures WithoutIndex(cs, idx) == cs
  {
    if cs != [] {
      assert cs[0] in cs;
      WithoutIndexNone(cs[1..], idx);
      assert [cs[0]] + cs[1..] == cs;
    }
  }

  /** As written, a role decoded as empty bytes (wire type 2 on the role field) passes
      `role != 0` and is stored as `int(b"" or 0)`, that is 0: a disabled channel is kept. */
  lemma RoleZeroStored()
    ensures UpsertChannelAsWritten([], VInt(1), VStr("x"), VBytes([])) == Stored([Channel(1, VStr("x"), 0)], false)
    ensures !ChannelsValid(UpsertChannelAsWritten([], VInt(1), VStr("x"), VBytes([])).value)
  {
    assert SortByIndex([Channel(1, VStr("x"), 0)]) == Insert([], Channel(1, VStr("x"), 0));
  }

  /** As written, an index decoded as the bytes b"1" is not equal to the stored index 1, so the
      old channel stays, and `int(b"1")` gives the new one index 1 as well. */
  lemma DuplicateIndexStored()
    ensures var r := UpsertChannelAsWritten([Channel(1, VStr("a"), 1)], VBytes([0x31]), VStr("b"), VInt(1));
      r == Stored([Channel(1, VStr("a"), 1), Channel(1, VStr("b"), 1)], false) && !StrictlySorted(r.value)
  {
    var old1 := Channel(1, VStr("a"), 1);
    var new1 := Channel(1, VStr("b"), 1);
    DuplicateSteps(old1, new1);
    assert !StrictlySorted([old1, new1]);
  }

  /** The steps of the upsert in DuplicateIndexStored, one at a time. */
  lemma DuplicateSteps(old1: Channel, new1: Channel)
    requires old1 == Channel(1, VStr("a"), 1) && new1 == Channel(1, VStr("b"), 1)
    ensures WithoutIndex([old1], VBytes([0x31])) == [old1]
    ensures NewChannel(VBytes([0x31]), VStr("b"), VInt(1)) == Ok(new1)
    ensures SortByIndex([old1] + [new1]) == [old1, new1]
  {
    IntOfOneByte();
    SortSnoc([old1], new1);
    assert Insert([old1], new1) == [old1, new1];
  }

  /** `int(b"1") == 1`. */
  lemma IntOfOneByte()
    ensures IntOf(VBytes([0x31])) == Ok(1)
  {
    var bs: seq<byte> := [0x31];
    assert AsciiText(bs);
    assert Latin1(bs) == "1";
    assert PyStr.NumeralValue("1") == 1 by { assert "1"[..0] == []; }
    PyStr.ParseDigits("1");
    assert IntOfText("1") == Ok(1);
  }

  /** Sorting a sorted list with one more channel at the end inserts that channel. */
  lemma SortSnoc(s: seq<Channel>, c: Channel)
    requires Sorted(s)
    ensures SortByIndex(s + [c]) == Insert(s, c)
  {
    assert (s + [c])[..|s|] == s;
    SortSorted(s);
  }

  /** Inserting a channel with a fresh index keeps one channel per index and adds just it. */
  lemma InsertFresh(s: seq<Channel>, c: Channel)
    requires StrictlySorted(s) && forall x :: x in s ==> x.index != c.index
    ensures StrictlySorted(SortByIndex(s + [c]))
    ensures forall x :: x in SortByIndex(s + [c]) <==> x in s || x == c
  {
    SortSnoc(s, c);
    InsertSorted(s, c);
    forall x ensures x in Insert(s, c) <==> x in s || x == c {
      assert x in Insert(s, c) <==> x in multiset(Insert(s, c));
    }
  }

  /** A store keeps the channel table valid, also when it raises; a missing or empty channel
      entry changes nothing. */
  lemma StoreChannelSorted(cs: seq<Channel>, fr: seq<Entry>)
    requires ChannelsValid(cs)
    ensures ChannelsValid(StoreChannelSpec(cs, fr).value)
    ensures (Lookup(fr, Name("channel")).None? || !Truthy(Lookup(fr, Name("channel")).value)) ==>
      StoreChannelSpec(cs, fr) == Stored(cs, false)
  {
    var ch := Lookup(fr, Name("channel"));
    if ch.Some? && Truthy(ch.value) && ch.value.VDict? {
      var idx := GetOr(ch.value.entries, "index", VInt(0));
      var settings := GetOr(ch.value.entries, "settings", VDict([]));
      if settings.VDict? {
        UpsertChannelSpec(cs, idx, GetOr(settings.entries, "name", VStr("CH_" + StrOf(idx))),
                          GetOr(ch.value.entries, "role", VInt(0)));
      }
    }
  }

  /**
   * The node upsert: afterwards exactly one node has the entry's `num` and it is the last one;
   * its index is the number of other nodes, which keep their order; a missing name is "???"
   * (short) or "Desconocido" (long), a missing id "???". One node per `num` is kept.
   */
  lemma StoreNodeUpsert(ns: seq<Node>, fr: seq<Entry>)
    requires DistinctNums(ns)
    ensures DistinctNums(StoreNodeSpec(ns, fr).value)
    ensures (Lookup(fr, Name("node_info")).None? || !Truthy(Lookup(fr, Name("node_info")).value)) ==>
      StoreNodeSpec(ns, fr) == Stored(ns, false)
    ensures
      var r := StoreNodeSpec(ns, fr);
      var ni := Lookup(fr, Name("node_info"));
      ni.Some? && ni.value.VDict? && Truthy(ni.value) && !r.raised ==>
        var num := GetOr(ni.value.entries, "num", VInt(0));
        var user := GetOr(ni.value.entries, "user", VDict([]));
        && r.value != []
        && r.value[..|r.value| - 1] == WithoutNum(ns, num)
        && r.value[|r.value| - 1] == NodeOf(WithoutNum(ns, num), num, user.entries)
        && r.value[|r.value| - 1].index == |r.value| - 1
        && (forall k :: 0 <= k < |r.value| - 1 ==> !Equal(r.value[k].num, num))
  {
    var ni := Lookup(fr, Name("node_info"));
    if ni.Some? && Truthy(ni.value) && ni.value.VDict? {
      var num := GetOr(ni.value.entries, "num", VInt(0));
      var user := GetOr(ni.value.entries, "user", VDict([]));
      if user.VDict? {
        var kept := WithoutNum(ns, num);
        WithoutNumDistinct(ns, num);
        var r := kept + [NodeOf(kept, num, user.entries)];
        assert r[..|r| - 1] == kept;
        forall k | 0 <= k < |r| - 1 ensures !Equal(r[k].num, num) {
          assert r[k] in kept;
        }
      }
    }
  }

  // ---------------------------------------------------------------- the device

  /** The state a device keeps: `channels`, `nodes` and `my_node_num` (unset until the radio
      reports it). */
  datatype DeviceState = DeviceState(channels: seq<Channel>, nodes: seq<Node>, myNodeNum: Option<Value>)

  /** `recv()` after the transport returned `raw`: the state afterwards and the result. */
  function RecvSpec(st: DeviceState, raw: seq<byte>): (DeviceState, Option<seq<Entry>>)
  {
    match Unframe(raw)
    case None => (st, None)
    case Some(data) =>
      match Decoder.Decode(data, Raw(FROMRADIO_SCHEMA), 0)
      case Err(_) => (st, None)
      case Ok(fr) =>
        if fr == [] then (st, Some(fr))
        else
          var a := Absorb(st, fr);
          (a.value, if a.raised then None else Some(fr))
  }

  /** The three stores of `recv`, in order: channel, own node number, node. The first that
      raises ends the sequence, and what the earlier ones stored stays. */
  function Absorb(st: DeviceState, fr: seq<Entry>): Stored<DeviceState>
  {
    var c := StoreChannelSpec(st.channels, fr);
    if c.raised then Stored(st.(channels := c.value), true)
    else
      var m := StoreMyNodeSpec(st.myNodeNum, fr);
      if m.raised then Stored(st.(channels := c.value, myNodeNum := m.value), true)
      else
        var n := StoreNodeSpec(st.nodes, fr);
        Stored(DeviceState(c.value, n.value, m.value), n.raised)
  }

  /** The stores keep the channel table valid and one node per `num`. */
  lemma AbsorbKeepsValid(st: DeviceState, fr: seq<Entry>)
    requires ChannelsValid(st.channels) && DistinctNums(st.nodes)
    ensures ChannelsValid(Absorb(st, fr).value.channels) && DistinctNums(Absorb(st, fr).value.nodes)
  {
    StoreChannelSorted(st.channels, fr);
    StoreNodeUpsert(st.nodes, fr);
  }

  /** A frame too short or a message that does not decode makes `recv` return None and leaves
      the channels, the nodes and the node number as they were. */
  lemma RecvFailure(st: DeviceState, raw: seq<byte>)
    requires Unframe(raw).None? || Decoder.Decode(Unframe(raw).value, Raw(FROMRADIO_SCHEMA), 0).Err?
    ensures RecvSpec(st, raw) == (st, None)
  {
  }

  /** Whatever arrives, `recv` keeps the channels sorted with one per index and none disabled,
      and one node per `num`. */
  lemma RecvKeepsValid(st: DeviceState, raw: seq<byte>)
    requires ChannelsValid(st.channels) && DistinctNums(st.nodes)
    ensures ChannelsValid(RecvSpec(st, raw).0.channels) && DistinctNums(RecvSpec(st, raw).0.nodes)
  {
    var u := Unframe(raw);
    if u.Some? {
      var d := Decoder.Decode(u.value, Raw(FROMRADIO_SCHEMA), 0);
      if d.Ok? && d.value != [] {
        AbsorbKeepsValid(st, d.value);
      }
    }
  }

  /** The info dict `get_channel_info` returns for a channel. */
  function InfoOf(c: Channel): seq<Entry>
  {
    [Entry(Name("index"), VInt(c.index)), Entry(Name("name"), c.name), Entry(Name("role"), VInt(c.role)),
     Entry(Name("role_name"), VStr(if c.role == 1 then "PRIMARY" else "SECONDARY"))]
  }

  /** The info of the first channel with this name, or None when no channel has it. */
  function ChannelInfo(cs: seq<Channel>, name: string): (r: Option<seq<Entry>>)
    ensures r.None? <==> forall k :: 0 <= k < |cs| ==> cs[k].name != VStr(name)
    ensures r.Some? ==>
      exists k :: (0 <= k < |cs| && cs[k].name == VStr(name) && r.value == InfoOf(cs[k])
                   && forall j :: 0 <= j < k ==> cs[j].name != VStr(name))
  {
    if cs == [] then None
    else if cs[0].name == VStr(name) then Some(InfoOf(cs[0]))
    else
      var r := ChannelInfo(cs[1..], name);
      assert r.Some? ==> exists k :: (1 <= k < |cs| && cs[k].name == VStr(name) && r.value == InfoOf(cs[k])
                   && forall j :: 0 <= j < k ==> cs[j].name != VStr(name)) by {
        if r.Some? {
          var k :| 0 <= k < |cs[1..]| && cs[1..][k].name == VStr(name) && r.value == InfoOf(cs[1..][k])
                  && forall j :: 0 <= j < k ==> cs[1..][j].name != VStr(name);
          assert forall j :: 1 <= j < k + 1 ==> cs[j] == cs[1..][j - 1];
        }
      }
      r
  }

  /** `role_name` is "PRIMARY" exactly for role 1. */
  lemma InfoRoleName(c: Channel)
    ensures Lookup(InfoOf(c), Name("role_name")) == Some(VStr("PRIMARY")) <==> c.role == 1
  {
    LookupAt(InfoOf(c), Name("role_name"), 3);
  }

  // ---------------------------------------------------------------- the messages built to send

  /** `{"packet": packet}`: a ToRadio message. */
  function ToRadio(packet: seq<Entry>): seq<Entry>
  {
    [Entry(Name("packet"), VDict(packet))]
  }

  /** The bytes handed to the transport for a ToRadio message, or what encode raised. */
  function Outgoing(packet: seq<Entry>): Result<seq<byte>>
  {
    match Encoder.EncodeWith(ToRadio(packet), Raw(TORADIO_SCHEMA))
    case Err(e) => Err(e)
    case Ok(b) => Ok(Frame(b))
  }

  /** The mesh packet of `send_ack(p)`: a mirror packet from and to the sender of p, carrying
      p's id as `request_id` on the routing port. A missing id or sender would be a None that
      encode rejects (`int(None)`), so no packet is built. */
  function AckPacket(p: seq<Entry>, rid: int): (r: Result<seq<Entry>>)
    ensures r.Ok? <==> Name("id") in Keys(p) && Name("from") in Keys(p)
  {
    if Name("id") !in Keys(p) || Name("from") !in Keys(p) then Err(TypeMismatch)
    else Ok(Ack(Lookup(p, Name("id")).value, Lookup(p, Name("from")).value, GetOr(p, "channel", VInt(1)), rid))
  }

  /** The acknowledgement of the packet `id` from `from` that came on `channel`. */
  function Ack(id: Value, from: Value, channel: Value, rid: int): (r: seq<Entry>)
    ensures Name("encrypted") !in Keys(r)
  {
    [Entry(Name("channel"), channel),
     Entry(Name("from"), from),
     Entry(Name("to"), from),
     Entry(Name("decoded"), VDict(AckData(id))),
     Entry(Name("id"), VInt(rid)),
     Entry(Name("priority"), VInt(120))]
  }

  /** The `decoded` part of an acknowledgement: a routing message answering `id`. */
  function AckData(id: Value): seq<Entry>
  {
    [Entry(Name("request_id"), id), Entry(Name("portnum"), VInt(5)), Entry(Name("payload"), VBytes([0x18, 0x00]))]
  }

  lemma AckTo(id: Value, from: Value, channel: Value, rid: int)
    ensures Lookup(Ack(id, from, channel, rid), Name("to")) == Some(from)
  {
    LookupAt(Ack(id, from, channel, rid), Name("to"), 2);
  }

  lemma AckFrom(id: Value, from: Value, channel: Value, rid: int)
    ensures Lookup(Ack(id, from, channel, rid), Name("from")) == Some(from)
  {
    LookupAt(Ack(id, from, channel, rid), Name("from"), 1);
  }

  lemma AckChannel(id: Value, from: Value, channel: Value, rid: int)
    ensures Lookup(Ack(id, from, channel, rid), Name("channel")) == Some(channel)
  {
    LookupAt(Ack(id, from, channel, rid), Name("channel"), 0);
  }

  lemma AckId(id: Value, from: Value, channel: Value, rid: int)
    ensures Lookup(Ack(id, from, channel, rid), Name("id")) == Some(VInt(rid))
  {
    LookupAt(Ack(id, from, channel, rid), Name("id"), 4);
  }

  lemma AckDecoded(id: Value, from: Value, channel: Value, rid: int)
    ensures Lookup(Ack(id, from, channel, rid), Name("decoded")) == Some(VDict(AckData(id)))
  {
    LookupAt(Ack(id, from, channel, rid), Name("decoded"), 3);
  }

  lemma AckRequestId(id: Value)
    ensures Lookup(AckData(id), Name("request_id")) == Some(id)
  {
    LookupAt(AckData(id), Name("request_id"), 0);
  }

  lemma AckPort(id: Value)
    ensures Lookup(AckData(id), Name("portnum")) == Some(VInt(5))
  {
    LookupAt(AckData(id), Name("portnum"), 1);
  }

  /** What the acknowledgement of p carries: addressed to p's sender and from it, on p's
      channel (1 when p has none), with p's id as `request_id` on port 5, the routing port. */
  lemma AckContents(p: seq<Entry>, rid: int)
    requires Name("id") in Keys(p) && Name("from") in Keys(p)
    ensures var a := AckPacket(p, rid).value;
      && Lookup(a, Name("to")) == Lookup(p, Name("from"))
      && Lookup(a, Name("from")) == Lookup(p, Name("from"))
      && Lookup(a, Name("channel")) == Some(GetOr(p, "channel", VInt(1)))
      && Lookup(a, Name("id")) == Some(VInt(rid))
      && Lookup(a, Name("decoded")) == Some(VDict(AckData(Lookup(p, Name("id")).value)))
    ensures Lookup(AckData(Lookup(p, Name("id")).value), Name("request_id")) == Lookup(p, Name("id"))
    ensures Lookup(AckData(Lookup(p, Name("id")).value), Name("portnum")) == Some(VInt(5))
  {
    var id := Lookup(p, Name("id")).value;
    var from := Lookup(p, Name("from")).value;
    var channel := GetOr(p, "channel", VInt(1));
    AckTo(id, from, channel, rid);
    AckFrom(id, from, channel, rid);
    AckChannel(id, from, channel, rid);
    AckId(id, from, channel, rid);
    AckDecoded(id, from, channel, rid);
    AckRequestId(id);
    AckPort(id);
  }

  /** The mesh packet of `send_ack_old(p, my_node_num)`: `p["from"]` and `p["id"]` raise a
      KeyError when missing. */
  function OldAckPacket(p: seq<Entry>, myNode: Value, rid: int): (r: Result<seq<Entry>>)
    ensures r.Ok? <==> Name("id") in Keys(p) && Name("from") in Keys(p)
  {
    if Name("from") !in Keys(p) || Name("id") !in Keys(p) then Err(MissingKey)
    else Ok(OldAck(Lookup(p, Name("id")).value, Lookup(p, Name("from")).value, GetOr(p, "channel", VInt(0)), myNode, rid))
  }

  /** The old acknowledgement, from `myNode`, of the packet `id` from `from`. */
  function OldAck(id: Value, from: Value, channel: Value, myNode: Value, rid: int): (r: seq<Entry>)
    ensures Name("encrypted") !in Keys(r)
  {
    [Entry(Name("id"), VInt(rid)),
     Entry(Name("from"), myNode),
     Entry(Name("to"), from),
     Entry(Name("channel"), channel),
     Entry(Name("priority"), VInt(70)),
     Entry(Name("decoded"), VDict(OldAckData(id, from, myNode)))]
  }

  /** The `decoded` part of the old acknowledgement: an empty reply to `id`. */
  function OldAckData(id: Value, from: Value, myNode: Value): seq<Entry>
  {
    [Entry(Name("portnum"), VInt(32)), Entry(Name("payload"), VBytes([])), Entry(Name("reply_id"), id),
     Entry(Name("dest"), from), Entry(Name("source"), myNode)]
  }

  lemma OldAckTo(id: Value, from: Value, channel: Value, myNode: Value, rid: int)
    ensures Lookup(OldAck(id, from, channel, myNode, rid), Name("to")) == Some(from)
  {
    LookupAt(OldAck(id, from, channel, myNode, rid), Name("to"), 2);
  }

  lemma OldAckFrom(id: Value, from: Value, channel: Value, myNode: Value, rid: int)
    ensures Lookup(OldAck(id, from, channel, myNode, rid), Name("from")) == Some(myNode)
  {
    LookupAt(OldAck(id, from, channel, myNode, rid), Name("from"), 1);
  }

  lemma OldAckDecoded(id: Value, from: Value, channel: Value, myNode: Value, rid: int)
    ensures Lookup(OldAck(id, from, channel, myNode, rid), Name("decoded")) == Some(VDict(OldAckData(id, from, myNode)))
  {
    LookupAt(OldAck(id, from, channel, myNode, rid), Name("decoded"), 5);
  }

  lemma OldAckReplyId(id: Value, from: Value, myNode: Value)
    ensures Lookup(OldAckData(id, from, myNode), Name("reply_id")) == Some(id)
  {
    LookupAt(OldAckData(id, from, myNode), Name("reply_id"), 2);
  }

  lemma OldAckPort(id: Value, from: Value, myNode: Value)
    ensures Lookup(OldAckData(id, from, myNode), Name("portnum")) == Some(VInt(32))
  {
    LookupAt(OldAckData(id, from, myNode), Name("portnum"), 0);
  }

  /** The old acknowledgement answers p: it goes from this node to p's sender, with p's id as
      `reply_id` on port 32, the reply port. */
  lemma OldAckContents(p: seq<Entry>, myNode: Value, rid: int)
    requires Name("id") in Keys(p) && Name("from") in Keys(p)
    ensures var a := OldAckPacket(p, myNode, rid).value;
      var d := OldAckData(Lookup(p, Name("id")).value, Lookup(p, Name("from")).value, myNode);
      && Lookup(a, Name("to")) == Lookup(p, Name("from"))
      && Lookup(a, Name("from")) == Some(myNode)
      && Lookup(a, Name("decoded")) == Some(VDict(d))
      && Lookup(d, Name("reply_id")) == Lookup(p, Name("id"))
      && Lookup(d, Name("portnum")) == Some(VInt(32))
  {
    var id := Lookup(p, Name("id")).value;
    var from := Lookup(p, Name("from")).value;
    var channel := GetOr(p, "channel", VInt(0));
    OldAckTo(id, from, channel, myNode, rid);
    OldAckFrom(id, from, channel, myNode, rid);
    OldAckDecoded(id, from, channel, myNode, rid);
    OldAckReplyId(id, from, myNode);
    OldAckPort(id, from, myNode);
  }

  /** The `decoded` part of a text message: the text's UTF-8 bytes on port 1. */
  function TextData(text: string, wantResponse: bool): seq<Entry>
  {
    [Entry(Name("portnum"), VInt(1)), Entry(Name("payload"), VBytes(Utf8.Encode(text)))]
      + (if wantResponse then [Entry(Name("want_response"), VBool(true))] else [])
  }

  /** The mesh packet of `send_to_channel(num, texto)`: a text message broadcast on a channel. */
  function ChannelTextPacket(myNode: Value, num: Value, text: string, rid: int): (r: seq<Entry>)
    ensures Name("encrypted") !in Keys(r)
  {
    [Entry(Name("from"), myNode),
     Entry(Name("to"), VInt(BROADCAST)),
     Entry(Name("channel"), num),
     Entry(Name("decoded"), VDict(TextData(text, false))),
     Entry(Name("id"), VInt(rid)),
     Entry(Name("want_ack"), VBool(true)),
     Entry(Name("priority"), VInt(120))]
  }

  /** The mesh packet of `send_to_node(node_num, text)`: a direct text message that asks for a
      response. */
  function NodeTextPacket(myNode: Value, nodeNum: Value, text: string, rid: int): (r: seq<Entry>)
    ensures Name("encrypted") !in Keys(r)
  {
    [Entry(Name("from"), myNode),
     Entry(Name("to"), nodeNum),
     Entry(Name("decoded"), VDict(TextData(text, true))),
     Entry(Name("id"), VInt(rid)),
     Entry(Name("want_ack"), VBool(true)),
     Entry(Name("priority"), VInt(120))]
  }

  lemma ChannelTextTo(myNode: Value, to: Value, text: string, rid: int)
    ensures Lookup(ChannelTextPacket(myNode, to, text, rid), Name("to")) == Some(VInt(BROADCAST))
  {
    LookupAt(ChannelTextPacket(myNode, to, text, rid), Name("to"), 1);
  }

  lemma ChannelTextChannel(myNode: Value, to: Value, text: string, rid: int)
    ensures Lookup(ChannelTextPacket(myNode, to, text, rid), Name("channel")) == Some(to)
  {
    LookupAt(ChannelTextPacket(myNode, to, text, rid), Name("channel"), 2);
  }

  lemma ChannelTextDecoded(myNode: Value, to: Value, text: string, rid: int)
    ensures Lookup(ChannelTextPacket(myNode, to, text, rid), Name("decoded")) == Some(VDict(TextData(text, false)))
  {
    LookupAt(ChannelTextPacket(myNode, to, text, rid), Name("decoded"), 3);
  }

  lemma NodeTextTo(myNode: Value, to: Value, text: string, rid: int)
    ensures Lookup(NodeTextPacket(myNode, to, text, rid), Name("to")) == Some(to)
  {
    LookupAt(NodeTextPacket(myNode, to, text, rid), Name("to"), 1);
  }

  lemma NodeTextDecoded(myNode: Value, to: Value, text: string, rid: int)
    ensures Lookup(NodeTextPacket(myNode, to, text, rid), Name("decoded")) == Some(VDict(TextData(text, true)))
  {
    LookupAt(NodeTextPacket(myNode, to, text, rid), Name("decoded"), 2);
  }

  lemma TextPort(text: string, w: bool)
    ensures Lookup(TextData(text, w), Name("portnum")) == Some(VInt(1))
  {
    LookupAt(TextData(text, w), Name("portnum"), 0);
  }

  lemma TextPayload(text: string, w: bool)
    ensures Lookup(TextData(text, w), Name("payload")) == Some(VBytes(Utf8.Encode(text)))
  {
    LookupAt(TextData(text, w), Name("payload"), 1);
  }

  lemma TextWantsResponse(text: string)
    ensures Lookup(TextData(text, true), Name("want_response")) == Some(VBool(true))
  {
    LookupAt(TextData(text, true), Name("want_response"), 2);
  }

  /** A channel message goes to the broadcast address on the channel given and carries the
      text without asking for a response. */
  lemma ChannelTextContents(myNode: Value, num: Value, text: string, rid: int)
    ensures Lookup(ChannelTextPacket(myNode, num, text, rid), Name("to")) == Some(VInt(BROADCAST))
    ensures Lookup(ChannelTextPacket(myNode, num, text, rid), Name("channel")) == Some(num)
    ensures Lookup(ChannelTextPacket(myNode, num, text, rid), Name("decoded")) == Some(VDict(TextData(text, false)))
  {
    ChannelTextTo(myNode, num, text, rid);
    ChannelTextChannel(myNode, num, text, rid);
    ChannelTextDecoded(myNode, num, text, rid);
  }

  /** A node message goes to the node given, on no channel, and carries the text asking for a
      response. */
  lemma NodeTextContents(myNode: Value, to: Value, text: string, rid: int)
    ensures Lookup(NodeTextPacket(myNode, to, text, rid), Name("to")) == Some(to)
    ensures Lookup(NodeTextPacket(myNode, to, text, rid), Name("decoded")) == Some(VDict(TextData(text, true)))
  {
    NodeTextTo(myNode, to, text, rid);
    NodeTextDecoded(myNode, to, text, rid);
  }

  /** A text message carries the text's UTF-8 bytes on port 1, the text port. */
  lemma TextDataContents(text: string, w: bool)
    ensures Lookup(TextData(text, w), Name("portnum")) == Some(VInt(1))
    ensures Lookup(TextData(text, w), Name("payload")) == Some(VBytes(Utf8.Encode(text)))
    ensures Lookup(TextData(text, w), Name("want_response")) == if w then Some(VBool(true)) else None
  {
    TextPort(text, w);
    TextPayload(text, w);
    if w {
      TextWantsResponse(text);
    }
  }

  /** The readings send_telemetry names, in the order it tests them, and which of them `int()`
      converts (the others go through `float()`). */
  const TELEMETRY_READINGS: seq<string> := [
    "temperature", "relative_humidity", "barometric_pressure", "gas_resistance", "voltage",
    "current", "iaq", "distance", "lux", "white_lux", "ir_lux", "uv_lux", "wind_direction",
    "wind_speed", "weight", "wind_gust", "wind_lull", "radiation", "rainfall_1h", "rainfall_24h",
    "soil_moisture", "soil_temperature"
  ]

  predicate IntReading(name: string)
  {
    name == "iaq" || name == "wind_direction" || name == "soil_moisture"
  }

  /** `telemetry_data`: one entry for every reading that is not None, in the order above.
      An integer reading goes through `int()`; a float reading is given as the value float()
      produced. */
  function Readings(readings: map<string, Value>): Result<seq<Entry>>
  {
    ReadingsFrom(readings, 0)
  }

  /** Reading j is given, goes through `int()`, and `int()` raises on it. */
  predicate BadReading(readings: map<string, Value>, j: nat)
    requires j < |TELEMETRY_READINGS|
  {
    var name := TELEMETRY_READINGS[j];
    name in readings && IntReading(name) && IntOf(readings[name]).Err?
  }

  /** The first reading from the k-th on whose `int()` raises, in the order send_telemetry
      tests them. */
  function FirstBadReading(readings: map<string, Value>, k: nat): (r: Option<nat>)
    requires k <= |TELEMETRY_READINGS|
    ensures r.Some? ==> k <= r.value < |TELEMETRY_READINGS| && BadReading(readings, r.value)
                        && forall j :: k <= j < r.value ==> !BadReading(readings, j)
    ensures r.None? ==> forall j :: k <= j < |TELEMETRY_READINGS| ==> !BadReading(readings, j)
    decreases |TELEMETRY_READINGS| - k
  {
    if k == |TELEMETRY_READINGS| then None
    else if BadReading(readings, k) then Some(k)
    else FirstBadReading(readings, k + 1)
  }

  /** The entry a given reading becomes: `int()` of it, or the value itself. */
  /** One reading's entry in `telemetry_data`, under its own name; only an int reading whose
      `int()` raises fails. */
  function ReadingEntry(readings: map<string, Value>, name: string): (r: Result<Entry>)
    requires name in readings
    ensures r.Err? <==> IntReading(name) && IntOf(readings[name]).Err?
    ensures r.Ok? ==> r.value.key == Name(name)
  {
    if IntReading(name) then
      match IntOf(readings[name])
      case Err(e) => Err(e)
      case Ok(n) => Ok(Entry(Name(name), VInt(n)))
    else Ok(Entry(Name(name), readings[name]))
  }

  /** The readings from the k-th on: each one converted in turn, the first exception ending
      the call. The conversion fails exactly when some given int reading fails, and then with
      the exception of the first such reading. */
  function ReadingsFrom(readings: map<string, Value>, k: nat): (r: Result<seq<Entry>>)
    requires k <= |TELEMETRY_READINGS|
    ensures r.Err? <==> FirstBadReading(readings, k).Some?
    ensures r.Err? ==> IntOf(readings[TELEMETRY_READINGS[FirstBadReading(readings, k).value]]) == Err(r.error)
    ensures r.Ok? ==> forall e :: e in r.value ==> e.key.Name? && e.key.name in readings
    decreases |TELEMETRY_READINGS| - k
  {
    if k == |TELEMETRY_READINGS| then Ok([])
    else
      var name := TELEMETRY_READINGS[k];
      if name !in readings then ReadingsFrom(readings, k + 1)
      else
        match ReadingEntry(readings, name)
        case Err(e) => Err(e)
        case Ok(entry) =>
          match ReadingsFrom(readings, k + 1)
          case Err(e) => Err(e)
          case Ok(rest) => Ok([entry] + rest)
  }

  /** send_telemetry names each reading once. */
  lemma ReadingNamesDistinct()
    ensures forall i, j :: 0 <= i < j < |TELEMETRY_READINGS| ==> TELEMETRY_READINGS[i] != TELEMETRY_READINGS[j]
  {
  }

  /**
   * When the conversion succeeds, `telemetry_data` maps each given reading to its entry:
   * `int()` of it for an int reading, the value itself otherwise. Every key is a given
   * reading from the k-th on, and no key occurs twice.
   */
  lemma {:induction false} ReadingsContent(readings: map<string, Value>, k: nat)
    requires k <= |TELEMETRY_READINGS| && ReadingsFrom(readings, k).Ok?
    ensures var es := ReadingsFrom(readings, k).value;
      && DistinctKeys(es)
      && (forall e :: e in es ==> e.key.Name? && e.key.name in readings && e.key.name in TELEMETRY_READINGS[k..])
      && (forall j :: k <= j < |TELEMETRY_READINGS| && TELEMETRY_READINGS[j] in readings ==>
            ReadingEntry(readings, TELEMETRY_READINGS[j]).Ok?
            && Lookup(es, Name(TELEMETRY_READINGS[j])) == Some(ReadingEntry(readings, TELEMETRY_READINGS[j]).value.val))
    decreases |TELEMETRY_READINGS| - k
  {
    if k < |TELEMETRY_READINGS| {
      ReadingsContent(readings, k + 1);
      ReadingNamesDistinct();
      ContentStep(readings, TELEMETRY_READINGS, k, ReadingsFrom(readings, k).value, ReadingsFrom(readings, k + 1).value);
    }
  }

  /** The step of `ReadingsContent`, over any list of distinct names: the entries for the
      names from the k-th on are those from the (k+1)-th on, with the k-th name's in front
      when it was given. */
  lemma ContentStep(readings: map<string, Value>, names: seq<string>, k: nat, es: seq<Entry>, rest: seq<Entry>)
    requires k < |names| && forall i, j :: 0 <= i < j < |names| ==> names[i] != names[j]
    requires names[k] in readings ==> ReadingEntry(readings, names[k]).Ok? && es == [ReadingEntry(readings, names[k]).value] + rest
    requires names[k] !in readings ==> es == rest
    requires DistinctKeys(rest)
    requires forall e :: e in rest ==> e.key.Name? && e.key.name in readings && e.key.name in names[k + 1..]
    requires forall j :: k + 1 <= j < |names| && names[j] in readings ==>
      ReadingEntry(readings, names[j]).Ok? && Lookup(rest, Name(names[j])) == Some(ReadingEntry(readings, names[j]).value.val)
    ensures DistinctKeys(es)
    ensures forall e :: e in es ==> e.key.Name? && e.key.name in readings && e.key.name in names[k..]
    ensures forall j :: k <= j < |names| && names[j] in readings ==>
      ReadingEntry(readings, names[j]).Ok? && Lookup(es, Name(names[j])) == Some(ReadingEntry(readings, names[j]).value.val)
  {
    var name := names[k];
    assert name !in names[k + 1..];
    assert names[k..] == [name] + names[k + 1..];
    if name in readings {
      EntryInFront(readings, names, k, ReadingEntry(readings, name).value, rest);
      forall j | k + 1 <= j < |names| && names[j] in readings
        ensures Lookup(es, Name(names[j])) == Lookup(rest, Name(names[j]))
      {
        assert names[j] != name;
      }
    }
  }

  /** One more entry, for the k-th name, in front of entries for later names. */
  lemma EntryInFront(readings: map<string, Value>, names: seq<string>, k: nat, entry: Entry, rest: seq<Entry>)
    requires k < |names| && names[k] !in names[k + 1..] && names[k..] == [names[k]] + names[k + 1..]
    requires entry.key == Name(names[k]) && names[k] in readings
    requires DistinctKeys(rest)
    requires forall e :: e in rest ==> e.key.Name? && e.key.name in readings && e.key.name in names[k + 1..]
    ensures DistinctKeys([entry] + rest)
    ensures forall e :: e in [entry] + rest ==> e.key.Name? && e.key.name in readings && e.key.name in names[k..]
    ensures Lookup([entry] + rest, entry.key) == Some(entry.val)
    ensures forall key :: key != entry.key ==> Lookup([entry] + rest, key) == Lookup(rest, key)
  {
    var es := [entry] + rest;
    assert es[1..] == rest;
    forall b | 0 < b < |es| ensures es[0].key != es[b].key {
      assert es[b] in rest;
    }
  }

  /** The probe of the order of conversions: with `iaq` and `wind_direction` both failing,
      the earlier `iaq` decides the exception. */
  lemma ReadingsFirstFailure()
    ensures Readings(map["iaq" := VStr("x"), "wind_direction" := VList([])]) == Err(InvalidIntLiteral)
  {
    var readings := map["iaq" := VStr("x"), "wind_direction" := VList([])];
    assert PyStr.IsNumeral("x") == false;
    assert IntOf(VStr("x")) == Err(InvalidIntLiteral);
    assert FirstBadReading(readings, 0) == Some(6) by {
      forall j | 0 <= j < 6 ensures !BadReading(readings, j) {
      }
      assert BadReading(readings, 6);
    }
  }

  /** The mesh packet of `send_telemetry`: the encoded Telemetry message on the telemetry port,
      broadcast on channel 0. */
  function TelemetryPacket(payload: seq<byte>, rid: int): (r: seq<Entry>)
    ensures Name("encrypted") !in Keys(r)
  {
    [Entry(Name("id"), VInt(rid)),
     Entry(Name("to"), VInt(BROADCAST)),
     Entry(Name("channel"), VInt(0)),
     Entry(Name("decoded"), VDict(TelemetryDecoded(payload)))]
  }

  /** The `decoded` part of a telemetry packet: the encoded Telemetry message on the
      telemetry port, asking for no response. */
  function TelemetryDecoded(payload: seq<byte>): seq<Entry>
  {
    [Entry(Name("portnum"), VInt(NamesToPortnums("TELEMETRY_APP").value)),
     Entry(Name("payload"), VBytes(payload)),
     Entry(Name("want_response"), VBool(false))]
  }

  lemma TelemetryPort()
    ensures NamesToPortnums("TELEMETRY_APP") == Some(67) && PORTNUMS[67] == "TELEMETRY_APP"
  {
  }

  /** The device: the transport is not modelled, the rest of its state is. */
  class MeshtDevice {
    var channels: seq<Channel>
    var nodes: seq<Node>
    var myNodeNum: Option<Value>

    function State(): DeviceState
      reads this
    {
      DeviceState(channels, nodes, myNodeNum)
    }

    /** The channels are sorted with one per index and none disabled, and there is one node
        per `num`. */
    ghost predicate Valid()
      reads this
    {
      ChannelsValid(channels) && DistinctNums(nodes)
    }

    constructor ()
      ensures Valid() && State() == DeviceState([], [], None)
    {
      channels := [];
      nodes := [];
      myNodeNum := None;
    }

    /** `_send_framed(data)`. */
    method SendFramed(data: seq<byte>) returns (r: seq<byte>)
      ensures r == Frame(data)
    {
      var length := |data|;
      var header: seq<byte> := [0x94, 0xC3, (length / 256) % 256, length % 256];
      r := header + data;
    }

    /** `recv()`: unframe, decode as a FromRadio message, store what it reports; None when
        the input is too short, when decode raises, or when a store raises. */
    method Recv(raw: seq<byte>) returns (r: Option<seq<Entry>>)
      requires Valid()
      modifies this
      ensures Valid()
      ensures (State(), r) == RecvSpec(old(State()), raw)
    {
      if |raw| < 4 {
        return None;
      }
      var data := raw;
      if raw[0] == 0x94 && raw[1] == 0xC3 {
        var length := raw[2] as int * 256 + raw[3] as int;
        data := raw[4..Min(4 + length, |raw|)];
      }
      var fr := Decoder.DecodeMessage(data, Raw(FROMRADIO_SCHEMA), 0);
      if fr.Err? {
        return None;
      }
      ghost var st := State();
      RecvKeepsValid(st, raw);
      if fr.value != [] {
        var raised := StoreChannel(fr.value);
        if raised {
          return None;
        }
        raised := StoreMyNode(fr.value);
        if raised {
          return None;
        }
        raised := StoreNode(fr.value);
        if raised {
          return None;
        }
      }
      return Some(fr.value);
    }

    /** `_maybe_store_channel(from_radio)`; `raised` says whether it raised. */
    method StoreChannel(fr: seq<Entry>) returns (raised: bool)
      modifies this
      ensures Stored(channels, raised) == StoreChannelSpec(old(channels), fr)
      ensures nodes == old(nodes) && myNodeNum == old(myNodeNum)
    {
      var ch := Lookup(fr, Name("channel"));
      if ch.None? || !Truthy(ch.value) {
        return false;
      }
      if !ch.value.VDict? {
        return true;
      }
      var idx := GetOr(ch.value.entries, "index", VInt(0));
      var settings := GetOr(ch.value.entries, "settings", VDict([]));
      if !settings.VDict? {
        return true;
      }
      var name := GetOr(settings.entries, "name", VStr("CH_" + StrOf(idx)));
      var role := GetOr(ch.value.entries, "role", VInt(0));
      channels := WithoutIndex(channels, idx);
      var converted := IntOf(idx);
      if converted.Ok? {
        channels := WithoutIndex(channels, VInt(converted.value));
      }
      if NonZero(role) {
        var c := NewChannel(idx, name, role);
        if c.Err? {
          return true;
        }
        if c.value.role != 0 {
          channels := channels + [c.value];
          channels := SortByIndex(channels);
        }
      }
      return false;
    }

    /** `_maybe_store_node(from_radio)`. */
    method StoreNode(fr: seq<Entry>) returns (raised: bool)
      modifies this
      ensures Stored(nodes, raised) == StoreNodeSpec(old(nodes), fr)
      ensures channels == old(channels) && myNodeNum == old(myNodeNum)
    {
      var ni := Lookup(fr, Name("node_info"));
      if ni.None? || !Truthy(ni.value) {
        return false;
      }
      if !ni.value.VDict? {
        return true;
      }
      var num := GetOr(ni.value.entries, "num", VInt(0));
      var user := GetOr(ni.value.entries, "user", VDict([]));
      if !user.VDict? {
        return true;
      }
      var idx := GetOr(user.entries, "id", VStr("???"));
      var sn := GetOr(user.entries, "short_name", VStr("???"));
      var ln := GetOr(user.entries, "long_name", VStr("Desconocido"));
      nodes := WithoutNum(nodes, num);
      var newNode := Node(|nodes|, sn, ln, num, idx);
      nodes := nodes + [newNode];
      return false;
    }

    /** `_maybe_store_my_node(from_radio)`. */
    method StoreMyNode(fr: seq<Entry>) returns (raised: bool)
      modifies this
      ensures Stored(myNodeNum, raised) == StoreMyNodeSpec(old(myNodeNum), fr)
      ensures channels == old(channels) && nodes == old(nodes)
    {
      var mi := Lookup(fr, Name("my_info"));
      if mi.None? || !Truthy(mi.value) {
        return false;
      }
      if !mi.value.VDict? {
        return true;
      }
      myNodeNum := Some(GetOr(mi.value.entries, "my_node_num", VInt(0)));
      return false;
    }

    /** `get_channel_info(name)`: the first channel with this name. */
    method GetChannelInfo(name: string) returns (r: Option<seq<Entry>>)
      ensures r == ChannelInfo(channels, name)
    {
      var k := 0;
      while k < |channels|
        invariant k <= |channels|
        invariant ChannelInfo(channels[k..], name) == ChannelInfo(channels, name)
      {
        assert channels[k..][0] == channels[k] && channels[k..][1..] == channels[k + 1..];
        var ch := channels[k];
        if ch.name == VStr(name) {
          return Some(InfoOf(ch));
        }
        k := k + 1;
      }
      return None;
    }

    /** `send_ack(p)`: the bytes sent, or None when encode raised (the error is printed). */
    method SendAck(p: seq<Entry>, rid: int) returns (sent: Option<seq<byte>>)
      ensures sent.Some? <==> AckPacket(p, rid).Ok? && Outgoing(AckPacket(p, rid).value).Ok?
      ensures sent.Some? ==> sent.value == Outgoing(AckPacket(p, rid).value).value
    {
      var packet := AckPacket(p, rid);
      if packet.Err? {
        return None;
      }
      var payload := Encoder.Encode(ToRadio(packet.value), Raw(TORADIO_SCHEMA));
      if payload.Err? {
        return None;
      }
      var framed := SendFramed(payload.value);
      return Some(framed);
    }

    /** `send_ack_old(p, my_node_num)`: the bytes sent, or what it raised. */
    method SendAckOld(p: seq<Entry>, myNode: Value, rid: int) returns (sent: Result<seq<byte>>)
      ensures OldAckPacket(p, myNode, rid).Err? ==> sent == Err(MissingKey)
      ensures OldAckPacket(p, myNode, rid).Ok? ==> sent == Outgoing(OldAckPacket(p, myNode, rid).value)
    {
      var packet := OldAckPacket(p, myNode, rid);
      if packet.Err? {
        return Err(packet.error);
      }
      var payload := Encoder.Encode(ToRadio(packet.value), Raw(TORADIO_SCHEMA));
      if payload.Err? {
        return Err(payload.error);
      }
      var framed := SendFramed(payload.value);
      return Ok(framed);
    }

    /** `send_to_channel(num, texto)`: reading `self.my_node_num` before the radio reported it
        raises; an encode error is printed and the second encode in the handler raises it
        again. */
    method SendToChannel(num: Value, text: string, rid: int) returns (sent: Result<seq<byte>>)
      ensures myNodeNum.None? ==> sent.Err?
      ensures myNodeNum.Some? ==> sent == Outgoing(ChannelTextPacket(myNodeNum.value, num, text, rid))
    {
      if myNodeNum.None? {
        return Err(MissingKey);
      }
      var packet := ChannelTextPacket(myNodeNum.value, num, text, rid);
      var payload := Encoder.Encode(ToRadio(packet), Raw(TORADIO_SCHEMA));
      if payload.Err? {
        return Err(payload.error);
      }
      var framed := SendFramed(payload.value);
      return Ok(framed);
    }

    /** `send_to_node(node_num, text)`: the bytes sent and the packet id it returns. */
    method SendToNode(nodeNum: Value, text: string, rid: int) returns (sent: Result<(seq<byte>, int)>)
      ensures myNodeNum.None? ==> sent.Err?
      ensures myNodeNum.Some? ==>
        var out := Outgoing(NodeTextPacket(myNodeNum.value, nodeNum, text, rid));
        (out.Err? ==> sent == Err(out.error)) && (out.Ok? ==> sent == Ok((out.value, rid)))
    {
      if myNodeNum.None? {
        return Err(MissingKey);
      }
      var packet := NodeTextPacket(myNodeNum.value, nodeNum, text, rid);
      var payload := Encoder.Encode(ToRadio(packet), Raw(TORADIO_SCHEMA));
      if payload.Err? {
        return Err(payload.error);
      }
      var framed := SendFramed(payload.value);
      return Ok((framed, rid));
    }

    /** `send_telemetry(**readings)` at time `now`: the bytes sent and the mesh packet it
        returns. */
    method SendTelemetry(readings: map<string, Value>, now: int, rid: int) returns (sent: Result<(seq<byte>, seq<Entry>)>)
      ensures Readings(readings).Err? ==> sent == Err(Readings(readings).error)
      ensures Readings(readings).Ok? ==>
        var wrapper := [Entry(Name("time"), VInt(now)), Entry(Name("environment_metrics"), VDict(Readings(readings).value))];
        var inner := Encoder.EncodeWith(wrapper, Raw(TELEMETRY_SCHEMA));
        (inner.Err? ==> sent == Err(inner.error))
        && (inner.Ok? ==>
              var out := Outgoing(TelemetryPacket(inner.value, rid));
              (out.Err? ==> sent == Err(out.error)) && (out.Ok? ==> sent == Ok((out.value, TelemetryPacket(inner.value, rid)))))
    {
      var data := Readings(readings);
      if data.Err? {
        return Err(data.error);
      }
      var wrapper := [Entry(Name("time"), VInt(now)), Entry(Name("environment_metrics"), VDict(data.value))];
      var encoded := Encoder.Encode(wrapper, Raw(TELEMETRY_SCHEMA));
      if encoded.Err? {
        return Err(encoded.error);
      }
      var packet := TelemetryPacket(encoded.value, rid);
      var payload := Encoder.Encode(ToRadio(packet), Raw(TORADIO_SCHEMA));
      if payload.Err? {
        return Err(payload.error);
      }
      var framed := SendFramed(payload.value);
      return Ok((framed, packet));
    }
  }
}
