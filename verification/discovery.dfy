/** The stand-alone broadcast scan: the probes it sends, how one UDP reply
    is turned into at most one device entry, how a whole round collects
    entries, and the comparison with the expected test device.  Sockets, the
    clock and the JSON parser are inputs. */
module Discovery {
  import opened Wrappers
  import opened TextOps
  import Seqs

  type byte = bv8

  // ---------------------------------------------------------------------------
  // The XOR layer
  // ---------------------------------------------------------------------------

  const XorKey: byte := 0xAB

  /** `bytes([b ^ 0xAB for b in data])`. */
  function Xor(data: seq<byte>): (r: seq<byte>)
    ensures |r| == |data|
    ensures forall i :: 0 <= i < |data| ==> r[i] == data[i] ^ XorKey
  {
    seq(|data|, i requires 0 <= i < |data| => data[i] ^ XorKey)
  }

  /** The XOR layer is its own inverse. */
  lemma XorInvolution(data: seq<byte>)
    ensures Xor(Xor(data)) == data
  {
    forall i | 0 <= i < |data| ensures Xor(Xor(data))[i] == data[i] {
      assert (data[i] ^ XorKey) ^ XorKey == data[i];
    }
  }

  // ---------------------------------------------------------------------------
  // JSON values and the Python operations applied to them
  // ---------------------------------------------------------------------------

  /** What `json.loads` reads.  Numbers are integers; an object is given
      by its members in document order, and `DictItems` is the dict Python
      builds from them. */
  datatype Json =
    | JNull
    | JBool(b: bool)
    | JNum(n: int)
    | JStr(s: string)
    | JList(items: seq<Json>)
    | JDict(fields: seq<(string, Json)>)

  /** The exceptions the decoding code can meet. */
  datatype Exc = DecodeError | TypeError | KeyError | AttributeError

  predicate HasKey(fields: seq<(string, Json)>, k: string) {
    exists i :: 0 <= i < |fields| && fields[i].0 == k
  }

  /** The value bound to `k`; with a repeated key the last binding wins,
      as in a dict built from the members in order. */
  function Lookup(fields: seq<(string, Json)>, k: string): (v: Json)
    requires HasKey(fields, k)
    ensures exists i :: 0 <= i < |fields| && fields[i] == (k, v)
    decreases |fields|
  {
    var n := |fields| - 1;
    if fields[n].0 == k then
      fields[n].1
    else
      var i :| 0 <= i < |fields| && fields[i].0 == k;
      assert fields[..n][i] == fields[i];
      var v := Lookup(fields[..n], k);
      var j :| 0 <= j < n && fields[..n][j] == (k, v);
      assert fields[j] == fields[..n][j];
      v
  }

  /** Where `k` first appears among the members. */
  function FirstIndex(fields: seq<(string, Json)>, k: string): (i: nat)
    requires HasKey(fields, k)
    ensures i < |fields| && fields[i].0 == k
    ensures forall j :: 0 <= j < i ==> fields[j].0 != k
    decreases |fields|
  {
    var n := |fields| - 1;
    if HasKey(fields[..n], k) then
      var i := FirstIndex(fields[..n], k);
      assert forall j :: 0 <= j < i ==> fields[j] == fields[..n][j];
      i
    else
      assert forall j :: 0 <= j < n ==> fields[j] == fields[..n][j];
      n
  }

  /** The dict's items after one more member: a new key goes to the end,
      a key already present keeps its place and takes the new value. */
  function Store(items: seq<(string, Json)>, k: string, v: Json): (r: seq<(string, Json)>)
  {
    if HasKey(items, k) then items[FirstIndex(items, k) := (k, v)] else items + [(k, v)]
  }

  /** Every item is one of the members. */
  ghost predicate ItemsFrom(items: seq<(string, Json)>, fields: seq<(string, Json)>) {
    forall i :: 0 <= i < |items| ==> items[i] in fields
  }

  /** No key appears twice. */
  predicate DistinctKeys(items: seq<(string, Json)>) {
    forall i, j :: 0 <= i < j < |items| ==> items[i].0 != items[j].0
  }

  ghost predicate SameKeys(items: seq<(string, Json)>, fields: seq<(string, Json)>) {
    forall k :: HasKey(items, k) <==> HasKey(fields, k)
  }

  /** Each item holds the last value its key is given. */
  ghost predicate LastValues(items: seq<(string, Json)>, fields: seq<(string, Json)>) {
    forall i :: 0 <= i < |items| ==> HasKey(fields, items[i].0) && items[i].1 == Lookup(fields, items[i].0)
  }

  /** The items are in the order their keys first appear. */
  ghost predicate FirstOrder(items: seq<(string, Json)>, fields: seq<(string, Json)>) {
    forall i, j :: 0 <= i < j < |items| ==>
      HasKey(fields, items[i].0) && HasKey(fields, items[j].0)
      && FirstIndex(fields, items[i].0) < FirstIndex(fields, items[j].0)
  }

  /** `items` is what a dict built from `fields` in order holds: each key
      once, in the order the keys first appear, with its last value. */
  ghost predicate IsDictOf(items: seq<(string, Json)>, fields: seq<(string, Json)>) {
    ItemsFrom(items, fields) && DistinctKeys(items) && SameKeys(items, fields)
    && LastValues(items, fields) && FirstOrder(items, fields)
  }

  /** The dict `json.loads` makes of an object: its members stored one by
      one, so that a repeated key is kept once, at its first place, with
      its last value. */
  function DictItems(fields: seq<(string, Json)>): (items: seq<(string, Json)>)
    ensures ItemsFrom(items, fields)
    ensures |items| <= |fields|
    decreases |fields|
  {
    if fields == [] then []
    else
      var n := |fields| - 1;
      var prev := DictItems(fields[..n]);
      StoreFrom(fields, prev);
      Store(prev, fields[n].0, fields[n].1)
  }

  /** The dict holds each key of the object once, in the order the keys
      first appear, with the value `Lookup` reads for it. */
  lemma {:induction false} DictItemsIsDict(fields: seq<(string, Json)>)
    ensures IsDictOf(DictItems(fields), fields)
    decreases |fields|
  {
    if fields != [] {
      var n := |fields| - 1;
      DictItemsIsDict(fields[..n]);
      StoreStep(fields, DictItems(fields[..n]));
    }
  }

  /** Storing the last member extends the dict of the members before it. */
  lemma StoreStep(fields: seq<(string, Json)>, prev: seq<(string, Json)>)
    requires fields != []
    requires IsDictOf(prev, fields[..|fields| - 1])
    ensures IsDictOf(Store(prev, fields[|fields| - 1].0, fields[|fields| - 1].1), fields)
  {
    var n := |fields| - 1;
    FrontKeys(fields);
    StoreFrom(fields, prev);
    StoreKeys(prev, fields[n].0, fields[n].1);
    StoreValues(fields, prev);
    StoreOrder(fields, prev);
  }

  /** The keys of the members are those of all but the last, and the last. */
  lemma FrontKeys(fields: seq<(string, Json)>)
    requires fields != []
    ensures forall k :: HasKey(fields, k) <==> HasKey(fields[..|fields| - 1], k) || k == fields[|fields| - 1].0
  {
    var n := |fields| - 1;
    var front := fields[..n];
    forall k | HasKey(fields, k) ensures HasKey(front, k) || k == fields[n].0 {
      var j :| 0 <= j < |fields| && fields[j].0 == k;
      if j < n { assert front[j].0 == k; }
    }
    forall k | HasKey(front, k) ensures HasKey(fields, k) {
      var j :| 0 <= j < n && front[j].0 == k;
      assert fields[j].0 == k;
    }
  }

  lemma StoreFrom(fields: seq<(string, Json)>, prev: seq<(string, Json)>)
    requires fields != [] && ItemsFrom(prev, fields[..|fields| - 1])
    ensures ItemsFrom(Store(prev, fields[|fields| - 1].0, fields[|fields| - 1].1), fields)
  {
  }

  /** Storing keeps the keys distinct and adds exactly the stored key. */
  lemma StoreKeys(prev: seq<(string, Json)>, k: string, v: Json)
    requires DistinctKeys(prev)
    ensures DistinctKeys(Store(prev, k, v))
    ensures forall k' :: HasKey(Store(prev, k, v), k') <==> HasKey(prev, k') || k' == k
    ensures HasKey(prev, k) ==> |Store(prev, k, v)| == |prev|
    ensures !HasKey(prev, k) ==> Store(prev, k, v) == prev + [(k, v)]
  {
    var r := Store(prev, k, v);
    if HasKey(prev, k) {
      var i := FirstIndex(prev, k);
      forall k' ensures HasKey(r, k') <==> HasKey(prev, k') || k' == k {
        if HasKey(r, k') {
          var j :| 0 <= j < |r| && r[j].0 == k';
          if j != i { assert prev[j].0 == k'; }
        }
        if HasKey(prev, k') {
          var j :| 0 <= j < |prev| && prev[j].0 == k';
          assert r[j].0 == k';
        }
        if k' == k { assert r[i].0 == k'; }
      }
    } else {
      forall k' ensures HasKey(r, k') <==> HasKey(prev, k') || k' == k {
        if HasKey(r, k') {
          var j :| 0 <= j < |r| && r[j].0 == k';
          if j < |prev| { assert prev[j].0 == k'; }
        }
        if HasKey(prev, k') {
          var j :| 0 <= j < |prev| && prev[j].0 == k';
          assert r[j].0 == k';
        }
        if k' == k { assert r[|prev|].0 == k'; }
      }
    }
  }

  lemma StoreValues(fields: seq<(string, Json)>, prev: seq<(string, Json)>)
    requires fields != []
    requires DistinctKeys(prev) && LastValues(prev, fields[..|fields| - 1])
    requires forall k :: HasKey(fields, k) <==> HasKey(fields[..|fields| - 1], k) || k == fields[|fields| - 1].0
    ensures LastValues(Store(prev, fields[|fields| - 1].0, fields[|fields| - 1].1), fields)
  {
  }

  /** A key of the earlier members first appears where it did among them. */
  lemma FirstIndexFront(fields: seq<(string, Json)>, k: string)
    requires fields != [] && HasKey(fields[..|fields| - 1], k)
    ensures HasKey(fields, k) && FirstIndex(fields, k) == FirstIndex(fields[..|fields| - 1], k)
  {
  }

  lemma StoreOrder(fields: seq<(string, Json)>, prev: seq<(string, Json)>)
    requires fields != []
    requires SameKeys(prev, fields[..|fields| - 1]) && FirstOrder(prev, fields[..|fields| - 1])
    ensures FirstOrder(Store(prev, fields[|fields| - 1].0, fields[|fields| - 1].1), fields)
  {
    var n := |fields| - 1;
    var (k, v) := fields[n];
    var r := Store(prev, k, v);
    StoreKeepsKeys(prev, k, v);
    if HasKey(prev, k) {
      forall i, j | 0 <= i < j < |r|
        ensures HasKey(fields, r[i].0) && HasKey(fields, r[j].0)
                && FirstIndex(fields, r[i].0) < FirstIndex(fields, r[j].0)
      {
        assert j < |prev| && r[i].0 == prev[i].0 && r[j].0 == prev[j].0;
        KeptOrder(fields, prev[i].0, prev[j].0);
      }
    } else {
      assert !HasKey(fields[..n], k);
      forall i, j | 0 <= i < j < |r|
        ensures HasKey(fields, r[i].0) && HasKey(fields, r[j].0)
                && FirstIndex(fields, r[i].0) < FirstIndex(fields, r[j].0)
      {
        assert r[i].0 == prev[i].0;
        if j < |prev| {
          assert r[j].0 == prev[j].0;
          KeptOrder(fields, prev[i].0, prev[j].0);
        } else {
          assert r[j] == fields[n];
          NewKeyLast(fields, prev[i].0);
        }
      }
    }
  }

  /** Storing changes no key already held, and appends a new one. */
  lemma StoreKeepsKeys(prev: seq<(string, Json)>, k: string, v: Json)
    ensures HasKey(prev, k) ==> |Store(prev, k, v)| == |prev|
    ensures !HasKey(prev, k) ==> |Store(prev, k, v)| == |prev| + 1 && Store(prev, k, v)[|prev|] == (k, v)
    ensures forall i :: 0 <= i < |prev| ==> Store(prev, k, v)[i].0 == prev[i].0
  {
  }

  /** Two keys of the earlier members keep their order of first appearance. */
  lemma KeptOrder(fields: seq<(string, Json)>, a: string, b: string)
    requires fields != [] && HasKey(fields[..|fields| - 1], a) && HasKey(fields[..|fields| - 1], b)
    requires FirstIndex(fields[..|fields| - 1], a) < FirstIndex(fields[..|fields| - 1], b)
    ensures HasKey(fields, a) && HasKey(fields, b) && FirstIndex(fields, a) < FirstIndex(fields, b)
  {
  }

  /** A key first given by the last member comes after every earlier key. */
  lemma NewKeyLast(fields: seq<(string, Json)>, a: string)
    requires fields != [] && HasKey(fields[..|fields| - 1], a)
    requires !HasKey(fields[..|fields| - 1], fields[|fields| - 1].0)
    ensures HasKey(fields, a) && HasKey(fields, fields[|fields| - 1].0)
    ensures FirstIndex(fields, a) < FirstIndex(fields, fields[|fields| - 1].0)
  {
  }

  /** Without a repeated key the dict holds the members as they are. */
  lemma {:induction false} DictItemsOfDistinct(fields: seq<(string, Json)>)
    requires DistinctKeys(fields)
    ensures DictItems(fields) == fields
    decreases |fields|
  {
    if fields != [] {
      var n := |fields| - 1;
      var front := fields[..n];
      assert DistinctKeys(front) by {
        forall i, j | 0 <= i < j < n ensures front[i].0 != front[j].0 {
          assert front[i] == fields[i] && front[j] == fields[j];
        }
      }
      DictItemsOfDistinct(front);
      assert !HasKey(front, fields[n].0) by {
        forall j | 0 <= j < n ensures front[j].0 != fields[n].0 { assert front[j] == fields[j]; }
      }
      StoreKeys(front, fields[n].0, fields[n].1);
      assert DictItems(fields) == Store(DictItems(front), fields[n].0, fields[n].1);
      assert Store(front, fields[n].0, fields[n].1) == front + [fields[n]] == fields;
    }
  }

  /** With a repeated key the dict keeps the key once, with the last value. */
  lemma DictItemsRepeatedKey()
    ensures DictItems([("a", JNum(1)), ("a", JNum(2))]) == [("a", JNum(2))]
  {
  }

  /** `k in x`: a key test on a dict, an element test on a list, a
      substring test on a string, and a TypeError on anything else. */
  function In(k: string, x: Json): (r: Result<bool, Exc>)
    ensures r.Err? <==> !(x.JDict? || x.JList? || x.JStr?)
    ensures x.JDict? ==> r == Ok(HasKey(x.fields, k))
    ensures x.JList? ==> r == Ok(JStr(k) in x.items)
    ensures x.JStr? ==> r == Ok(IsSubstring(k, x.s))
  {
    match x
    case JDict(fields) => Ok(HasKey(fields, k))
    case JList(items) => Ok(JStr(k) in items)
    case JStr(s) => Ok(Contains(s, k))
    case _ => Err(TypeError)
  }

  /** `x[k]` with a string `k`: only a dict holding the key answers. */
  function Subscript(x: Json, k: string): (r: Result<Json, Exc>)
    ensures r.Ok? <==> x.JDict? && HasKey(x.fields, k)
  {
    if x.JDict? then
      if HasKey(x.fields, k) then Ok(Lookup(x.fields, k)) else Err(KeyError)
    else Err(TypeError)
  }

  /** `x.get(k, default)`: only a dict has `get`. */
  function Get(x: Json, k: string, default: Json): (r: Result<Json, Exc>)
    ensures r.Ok? <==> x.JDict?
    ensures x.JDict? && !HasKey(x.fields, k) ==> r == Ok(default)
    ensures x.JDict? ==> r == Ok(DictGet(x.fields, k, default))
  {
    if x.JDict? then Ok(DictGet(x.fields, k, default)) else Err(AttributeError)
  }

  /** `.get(k, default)` on a dict, which cannot raise. */
  function DictGet(fields: seq<(string, Json)>, k: string, default: Json): Json {
    if HasKey(fields, k) then Lookup(fields, k) else default
  }

  // ---------------------------------------------------------------------------
  // Decoding one reply
  // ---------------------------------------------------------------------------

  /** A parser: the parsed value, or None when `json.loads` raises. */
  type Parser = seq<byte> -> Option<Json>

  function Parse(parse: Parser, data: seq<byte>): Result<Json, Exc> {
    match parse(data)
    case Some(j) => Ok(j)
    case None => Err(DecodeError)
  }

  /** One discovered device: the sender's address and the two reported
      values, whatever JSON type they have. */
  datatype Entry = Entry(ip: string, mac: Json, alias: Json)

  const Unknown: Json := JStr("Unknown")

  /** The first scheme: XOR-decode, parse, and read
      `system.get_sysinfo`.  `Ok(None)` is a reply that parsed but is not
      a sysinfo answer; `Err` is an exception, which sends the reply to the
      second scheme. */
  function Legacy(data: seq<byte>, ip: string, parse: Parser): (r: Result<Option<Entry>, Exc>)
    ensures parse(Xor(data)).None? ==> r == Err(DecodeError)
    ensures parse(Xor(data)).Some? && (parse(Xor(data)).value.JNum? || parse(Xor(data)).value.JNull?) ==> r == Err(TypeError)
    ensures r.Ok? && r.value.Some? ==> r.value.value.ip == ip
  {
    var info :- Parse(parse, Xor(data));
    var hasSystem :- In("system", info);
    if !hasSystem then Ok(None)
    else
      var system :- Subscript(info, "system");
      var hasSysinfo :- In("get_sysinfo", system);
      if !hasSysinfo then Ok(None)
      else
        var sysinfo :- Subscript(system, "get_sysinfo");
        var alias :- Get(sysinfo, "alias", Unknown);
        // the second `.get` is on the dict that just answered the first
        Ok(Some(Entry(ip, DictGet(sysinfo.fields, "mac", Unknown), alias)))
  }

  /** The second scheme: parse the raw bytes and read `result`. */
  function Plain(data: seq<byte>, ip: string, parse: Parser): (r: Result<Option<Entry>, Exc>)
    ensures parse(data).None? ==> r == Err(DecodeError)
    ensures parse(data).Some? && (parse(data).value.JNum? || parse(data).value.JNull?) ==> r == Err(TypeError)
    ensures r.Ok? && r.value.Some? ==> r.value.value.ip == ip
  {
    var info :- Parse(parse, data);
    var hasResult :- In("result", info);
    if !hasResult then Ok(None)
    else
      var result :- Subscript(info, "result");
      var alias :- Get(result, "device_alias", Unknown);
      // the second `.get` is on the dict that just answered the first
      Ok(Some(Entry(ip, DictGet(result.fields, "mac", Unknown), alias)))
  }

  /** What one received datagram contributes: the first scheme's answer,
      the second scheme's only when the first raised, nothing when both
      raised. */
  function DecodeReply(data: seq<byte>, ip: string, parse: Parser): (r: Option<Entry>)
    ensures r.Some? ==> r.value.ip == ip
  {
    match Legacy(data, ip, parse)
    case Ok(e) => e
    case Err(_) =>
      match Plain(data, ip, parse)
      case Ok(e) => e
      case Err(_) => None
  }

  /** A dict whose `k` member is a dict: the shape each scheme looks for. */
  predicate DictAt(x: Json, k: string) {
    x.JDict? && HasKey(x.fields, k) && Lookup(x.fields, k).JDict?
  }

  /** The legacy answer shape: `{"system": {"get_sysinfo": {...}}}`. */
  predicate SysinfoShape(x: Json) {
    DictAt(x, "system") && DictAt(Lookup(x.fields, "system"), "get_sysinfo")
  }

  /** The plain answer shape: `{"result": {...}}`. */
  predicate ResultShape(x: Json) {
    DictAt(x, "result")
  }

  /** The first scheme ends quietly, with or without an entry: the value
      is a container without `system`, or its `system` member is a
      container without `get_sysinfo`, or it has the full sysinfo shape. */
  predicate LegacyQuiet(j: Option<Json>) {
    && j.Some?
    && var x := j.value;
       && (x.JDict? || x.JList? || x.JStr?)
       && (In("system", x) == Ok(false)
           || (&& x.JDict? && HasKey(x.fields, "system")
               && var s := Lookup(x.fields, "system");
                  && (s.JDict? || s.JList? || s.JStr?)
                  && (In("get_sysinfo", s) == Ok(false) || SysinfoShape(x))))
  }

  /** The first scheme yields an entry exactly for the sysinfo shape, and
      then alias and MAC are read from `get_sysinfo`, "Unknown" when
      absent. */
  lemma LegacyEntryIffSysinfo(data: seq<byte>, ip: string, parse: Parser)
    ensures var r := Legacy(data, ip, parse);
            && (r.Ok? && r.value.Some? <==> parse(Xor(data)).Some? && SysinfoShape(parse(Xor(data)).value))
            && (r.Ok? && r.value.Some? ==>
                  var sys := Lookup(Lookup(parse(Xor(data)).value.fields, "system").fields, "get_sysinfo");
                  && r.value.value.alias == (if HasKey(sys.fields, "alias") then Lookup(sys.fields, "alias") else Unknown)
                  && r.value.value.mac == (if HasKey(sys.fields, "mac") then Lookup(sys.fields, "mac") else Unknown))
  {
  }

  /** The first scheme raises exactly when its parse fails or its value
      has neither the sysinfo shape nor a clean "not here". */
  lemma LegacyRaisesIff(data: seq<byte>, ip: string, parse: Parser)
    ensures Legacy(data, ip, parse).Err? <==> !LegacyQuiet(parse(Xor(data)))
  {
  }

  /** The second scheme yields an entry exactly for the result shape, and
      then alias and MAC are read from `result`, "Unknown" when absent. */
  lemma PlainEntryIffResult(data: seq<byte>, ip: string, parse: Parser)
    ensures var r := Plain(data, ip, parse);
            && (r.Ok? && r.value.Some? <==> parse(data).Some? && ResultShape(parse(data).value))
            && (r.Ok? && r.value.Some? ==>
                  var res := Lookup(parse(data).value.fields, "result");
                  && r.value.value.ip == ip
                  && r.value.value.alias == (if HasKey(res.fields, "device_alias") then Lookup(res.fields, "device_alias") else Unknown)
                  && r.value.value.mac == (if HasKey(res.fields, "mac") then Lookup(res.fields, "mac") else Unknown))
  {
  }

  /** A reply yields an entry exactly when its XOR-decoded form has the
      sysinfo shape, or the first scheme raised and the raw form has the
      result shape.  A sysinfo-less answer that parsed is therefore dropped
      even when its raw bytes are a valid plain answer. */
  lemma DecodeReplyIff(data: seq<byte>, ip: string, parse: Parser)
    ensures DecodeReply(data, ip, parse).Some? <==>
              || (parse(Xor(data)).Some? && SysinfoShape(parse(Xor(data)).value))
              || (!LegacyQuiet(parse(Xor(data))) && parse(data).Some? && ResultShape(parse(data).value))
  {
    LegacyEntryIffSysinfo(data, ip, parse);
    LegacyRaisesIff(data, ip, parse);
    PlainEntryIffResult(data, ip, parse);
  }

  /** A reply whose XOR-decoded form is an empty object is dropped without
      looking at the raw bytes, even when they are a plain answer. */
  lemma EmptyLegacyAnswerHidesPlainAnswer(data: seq<byte>, ip: string)
    ensures var plainAnswer := JDict([("result", JDict([]))]);
            var parse := (b: seq<byte>) => if b == data then Some(plainAnswer) else Some(JDict([]));
            Xor(data) != data ==> DecodeReply(data, ip, parse) == None
  {
  }

  // ---------------------------------------------------------------------------
  // A discovery round
  // ---------------------------------------------------------------------------

  /** The discovery ports. */
  const Ports: seq<int> := [9999, 20002]

  function Bytes(s: string): (r: seq<byte>)
    requires forall i :: 0 <= i < |s| ==> s[i] as int < 256
    ensures |r| == |s|
  {
    seq(|s|, i requires 0 <= i < |s| => s[i] as int as byte)
  }

  /** The two discovery messages: a plain-text sysinfo query and a binary
      probe for newer devices. */
  function Messages(): seq<seq<byte>> {
    [ Bytes("{\"system\":{\"get_sysinfo\":{}}}"),
      [0x02, 0x00, 0x00, 0x01, 0x01, 0x00, 0x00, 0x00, 0x00, 0x00, 0x00, 0x00, 0x46, 0x3b, 0xe8, 0x78] ]
  }

  /** Every (port, message) pair, port outermost. */
  function Probes(): (ps: seq<(int, seq<byte>)>)
    ensures |ps| == |Ports| * |Messages()|
    ensures forall k :: 0 <= k < |ps| ==>
              ps[k] == (Ports[k / |Messages()|], Messages()[k % |Messages()|])
  {
    var ms := Messages();
    [(Ports[0], ms[0]), (Ports[0], ms[1]), (Ports[1], ms[0]), (Ports[1], ms[1])]
  }

  /** The receive buffer of `recvfrom(1024)`. */
  const BufferSize: nat := 1024

  /** One datagram as it arrived: sender address and payload. */
  datatype Reply = Reply(src: string, payload: seq<byte>)

  /** What one probe met: the send raised, or the datagrams received
      before the receive loop ended (by timeout or by an error). */
  datatype Attempt = SendFailed | Sent(replies: seq<Reply>)

  /** The bytes `recvfrom(1024)` hands back: a longer datagram is cut. */
  function Received(r: Reply): (data: seq<byte>)
    ensures |data| == if |r.payload| <= BufferSize then |r.payload| else BufferSize
    ensures data == r.payload[..|data|]
    ensures |r.payload| <= BufferSize ==> data == r.payload
  {
    if |r.payload| <= BufferSize then r.payload else r.payload[..BufferSize]
  }

  /** The entries one reply list adds, in arrival order. */
  function ReplyEntries(replies: seq<Reply>, parse: Parser): seq<Entry>
    decreases |replies|
  {
    if replies == [] then []
    else
      var last := replies[|replies| - 1];
      var more := match DecodeReply(Received(last), last.src, parse)
                  case Some(e) => [e]
                  case None => [];
      ReplyEntries(replies[..|replies| - 1], parse) + more
  }

  function AttemptEntries(a: Attempt, parse: Parser): seq<Entry> {
    match a
    case SendFailed => []
    case Sent(replies) => ReplyEntries(replies, parse)
  }

  /** The entries of a whole round: each attempt's, in probe order, with
      no de-duplication. */
  function RoundEntries(attempts: seq<Attempt>, parse: Parser): seq<Entry>
    decreases |attempts|
  {
    if attempts == [] then []
    else RoundEntries(attempts[..|attempts| - 1], parse) + AttemptEntries(attempts[|attempts| - 1], parse)
  }

  function ReplyCount(attempts: seq<Attempt>): nat
    decreases |attempts|
  {
    if attempts == [] then 0
    else
      var a := attempts[|attempts| - 1];
      ReplyCount(attempts[..|attempts| - 1]) + (if a.Sent? then |a.replies| else 0)
  }

  /** Some received reply came from `ip`. */
  predicate RepliedFrom(attempts: seq<Attempt>, ip: string) {
    exists k, m :: 0 <= k < |attempts| && attempts[k].Sent? && 0 <= m < |attempts[k].replies|
                && attempts[k].replies[m].src == ip
  }

  /** The receive loop of one probe: every datagram is decoded in turn. */
  method CollectReplies(replies: seq<Reply>, parse: Parser) returns (added: seq<Entry>)
    ensures added == ReplyEntries(replies, parse)
    ensures |added| <= |replies|
    ensures forall e :: e in added ==> exists n :: 0 <= n < |replies| && replies[n].src == e.ip
  {
    added := [];
    var m := 0;
    while m < |replies|
      invariant 0 <= m <= |replies|
      invariant added == ReplyEntries(replies[..m], parse)
      invariant |added| <= m
      invariant forall e :: e in added ==> exists n :: 0 <= n < m && replies[n].src == e.ip
    {
      var r := replies[m];
      var entry := DecodeReply(Received(r), r.src, parse);
      ReplyPrefixStep(replies, m, parse);
      if entry.Some? {
        SourcedStep(replies, m, added, entry.value);
        added := added + [entry.value];
      }
      m := m + 1;
    }
    assert replies[..m] == replies;
  }

  /** An entry decoded from reply `m` came from that reply's sender. */
  lemma SourcedStep(replies: seq<Reply>, m: nat, added: seq<Entry>, e: Entry)
    requires m < |replies| && e.ip == replies[m].src
    requires forall x :: x in added ==> exists n :: 0 <= n < m && replies[n].src == x.ip
    ensures forall x :: x in added + [e] ==> exists n :: 0 <= n < m + 1 && replies[n].src == x.ip
  {
    forall x | x in added + [e] ensures exists n :: 0 <= n < m + 1 && replies[n].src == x.ip {
      if x !in added {
        assert x == e;
      }
    }
  }

  /** The entries of one more reply. */
  lemma ReplyPrefixStep(replies: seq<Reply>, m: nat, parse: Parser)
    requires m < |replies|
    ensures var r := replies[m];
            ReplyEntries(replies[..m + 1], parse)
              == ReplyEntries(replies[..m], parse)
                 + match DecodeReply(Received(r), r.src, parse) case Some(e) => [e] case None => []
  {
    assert replies[..m + 1][..m] == replies[..m];
  }

  lemma RepliedFromGrows(attempts: seq<Attempt>, k: nat, ip: string)
    requires k < |attempts|
    requires RepliedFrom(attempts[..k], ip)
             || (attempts[k].Sent? && exists n :: 0 <= n < |attempts[k].replies| && attempts[k].replies[n].src == ip)
    ensures RepliedFrom(attempts[..k + 1], ip)
  {
    var pre, ext := attempts[..k], attempts[..k + 1];
    if RepliedFrom(pre, ip) {
      var k', m' :| 0 <= k' < |pre| && pre[k'].Sent? && 0 <= m' < |pre[k'].replies| && pre[k'].replies[m'].src == ip;
      assert ext[k'] == pre[k'];
    } else {
      var n :| 0 <= n < |attempts[k].replies| && attempts[k].replies[n].src == ip;
      assert ext[k] == attempts[k];
    }
  }

  /** One more probe: its entries are appended, and the bounds carry over. */
  lemma RoundStep(attempts: seq<Attempt>, k: nat, parse: Parser, before: seq<Entry>, added: seq<Entry>)
    requires k < |attempts|
    requires before == RoundEntries(attempts[..k], parse)
    requires |before| <= ReplyCount(attempts[..k])
    requires forall e :: e in before ==> RepliedFrom(attempts[..k], e.ip)
    requires added == AttemptEntries(attempts[k], parse)
    requires |added| <= (if attempts[k].Sent? then |attempts[k].replies| else 0)
    requires forall e :: e in added ==>
               attempts[k].Sent? && exists n :: 0 <= n < |attempts[k].replies| && attempts[k].replies[n].src == e.ip
    ensures before + added == RoundEntries(attempts[..k + 1], parse)
    ensures |before + added| <= ReplyCount(attempts[..k + 1])
    ensures forall e :: e in before + added ==> RepliedFrom(attempts[..k + 1], e.ip)
  {
    RoundPrefixStep(attempts, k, parse);
    forall e | e in before + added ensures RepliedFrom(attempts[..k + 1], e.ip) {
      RepliedFromGrows(attempts, k, e.ip);
    }
  }

  /** The round functions over one more attempt. */
  lemma RoundPrefixStep(attempts: seq<Attempt>, k: nat, parse: Parser)
    requires k < |attempts|
    ensures RoundEntries(attempts[..k + 1], parse) == RoundEntries(attempts[..k], parse) + AttemptEntries(attempts[k], parse)
    ensures ReplyCount(attempts[..k + 1]) == ReplyCount(attempts[..k]) + (if attempts[k].Sent? then |attempts[k].replies| else 0)
  {
    assert attempts[..k + 1][..k] == attempts[..k];
    assert attempts[..k + 1][k] == attempts[k];
  }

  /** `discover_kasa_devices` with the network abstracted: the loop sends
      the probes in the order of `Probes()`, and `attempts[k]` is what
      sending `Probes()[k]` (its port and message) met. */
  method DiscoverRound(attempts: seq<Attempt>, parse: Parser) returns (devices: seq<Entry>)
    requires |attempts| == |Probes()|
    ensures devices == RoundEntries(attempts, parse)
    ensures |devices| <= ReplyCount(attempts)
    ensures forall e :: e in devices ==> RepliedFrom(attempts, e.ip)
  {
    devices := [];
    var k := 0;
    while k < |Probes()|
      invariant 0 <= k <= |attempts|
      invariant devices == RoundEntries(attempts[..k], parse)
      invariant |devices| <= ReplyCount(attempts[..k])
      invariant forall e :: e in devices ==> RepliedFrom(attempts[..k], e.ip)
    {
      var added: seq<Entry> := [];
      if attempts[k].Sent? {
        added := CollectReplies(attempts[k].replies, parse);
      }
      RoundStep(attempts, k, parse, devices, added);
      devices := devices + added;
      k := k + 1;
    }
    assert attempts[..k] == attempts;
  }

  // ---------------------------------------------------------------------------
  // The test-device check
  // ---------------------------------------------------------------------------

  const TargetMac: string := "98:25:4A:5F:4E:6F"
  const TargetName: string := "office sconce left"

  /** The decimal text of an integer, as `str` prints it. */
  function DecimalText(n: int): (t: string)
    ensures |t| > 0
    ensures forall i :: 0 <= i < |t| ==> IsDigitChar(t[i]) || t[i] == '-'
    decreases if n < 0 then 1 - n else n
  {
    if n < 0 then "-" + DecimalText(-n)
    else if n < 10 then [(48 + n) as char]
    else DecimalText(n / 10) + [(48 + n % 10) as char]
  }

  /** `str(v)` for a JSON value.  An object is shown as the dict it was
      loaded into; strings nested in a container are shown between single
      quotes without escaping. */
  function Str(j: Json): (t: string)
    ensures j.JStr? ==> t == j.s
    ensures t == [] <==> j == JStr("")
    decreases j, 1
  {
    match j
    case JNull => "None"
    case JBool(b) => if b then "True" else "False"
    case JNum(n) => DecimalText(n)
    case JStr(s) => s
    case JList(items) =>
      "[" + Join(seq(|items|, i requires 0 <= i < |items| => Repr(items[i])), ", ") + "]"
    case JDict(fields) =>
      var items := DictItems(fields);
      "{" + Join(seq(|items|, i requires 0 <= i < |items| => "'" + items[i].0 + "': " + Repr(items[i].1)), ", ") + "}"
  }

  function Repr(j: Json): string
    decreases j, 2
  {
    if j.JStr? then "'" + j.s + "'" else Str(j)
  }

  /** `str` of an object shows the dict it was loaded into: loading the
      shown items again changes nothing. */
  lemma StrShowsTheDict(fields: seq<(string, Json)>)
    ensures Str(JDict(fields)) == Str(JDict(DictItems(fields)))
  {
    DictItemsIsDict(fields);
    DictItemsOfDistinct(DictItems(fields));
  }

  /** A repeated key is shown once, with its last value. */
  lemma StrRepeatedKey()
    ensures Str(JDict([("a", JNum(1)), ("a", JNum(2))])) == "{'a': 2}"
  {
  }

  /** `mac.upper() == target_mac.upper()`. */
  predicate IsTargetMac(mac: string) {
    Upper(mac) == Upper(TargetMac)
  }

  /** `alias.lower() == "office sconce left"`. */
  predicate IsTargetName(alias: string) {
    Lower(alias) == TargetName
  }

  /** What `main` prints for one entry: whether it is the target, and if
      so whether its name is the expected one. */
  datatype Sighting = Sighting(ip: string, nameMatches: bool)

  /** The entry's MAC address, as printed, is the target's. */
  predicate IsTargetEntry(e: Entry) {
    IsTargetMac(Str(e.mac))
  }

  function SightingOf(e: Entry): Sighting {
    Sighting(e.ip, IsTargetName(Str(e.alias)))
  }

  /** One sighting per entry, in order. */
  function SightingsOf(es: seq<Entry>): (s: seq<Sighting>)
    ensures |s| == |es| && forall i :: 0 <= i < |es| ==> s[i] == SightingOf(es[i])
  {
    seq(|es|, i requires 0 <= i < |es| => SightingOf(es[i]))
  }

  /** One sighting per entry whose MAC is the target's, in list order. */
  function Sightings(entries: seq<Entry>): (s: seq<Sighting>)
    ensures |s| <= |entries|
    ensures s == [] <==> forall i :: 0 <= i < |entries| ==> !IsTargetMac(Str(entries[i].mac))
    ensures s == SightingsOf(Seqs.Filter(entries, IsTargetEntry))
    decreases |entries|
  {
    if entries == [] then []
    else
      var e := entries[0];
      var rest := Sightings(entries[1..]);
      assert forall i :: 1 <= i < |entries| ==> entries[i] == entries[1..][i - 1];
      Seqs.FilterCons(entries, IsTargetEntry);
      if IsTargetEntry(e) then
        SightingsOfCons(e, Seqs.Filter(entries[1..], IsTargetEntry));
        [SightingOf(e)] + rest
      else rest
  }

  lemma SightingsOfCons(e: Entry, es: seq<Entry>)
    ensures SightingsOf([e] + es) == [SightingOf(e)] + SightingsOf(es)
  {
    assert forall i :: 1 <= i <= |es| ==> ([e] + es)[i] == es[i - 1];
  }

  /** The MAC comparison ignores case. */
  lemma TargetMacIgnoresCase()
    ensures IsTargetMac("98:25:4a:5f:4e:6f")
    ensures IsTargetMac(TargetMac)
    ensures !IsTargetMac("98-25-4A-5F-4E-6F")
  {
    assert Upper("98-25-4A-5F-4E-6F")[2] == '-';
  }

  /** The name comparison ignores case but not surrounding spaces. */
  lemma TargetNameIgnoresCaseOnly()
    ensures IsTargetName("Office Sconce Left")
    ensures !IsTargetName("office sconce left ")
  {
  }

  /** Upper-casing keeps a character that is not a lower-case letter. */
  lemma UpperKeepsColonAbsent(t: string)
    requires forall i :: 0 <= i < |t| ==> t[i] != ':'
    ensures forall i :: 0 <= i < |Upper(t)| ==> Upper(t)[i] != ':'
  {
  }

  /** Only a JSON string can be the target's MAC: `str` of any other value
      is too short, starts with a bracket, or has no colon. */
  lemma {:induction false} OnlyStringsMatchTarget(j: Json)
    ensures !j.JStr? ==> !IsTargetMac(Str(j))
  {
    var u := Upper(TargetMac);
    assert u[0] == '9' && u[2] == ':' && |u| == 17;
    match j
    case JNull =>
    case JBool(_) =>
    case JNum(n) =>
      var t := DecimalText(n);
      forall i | 0 <= i < |t| ensures t[i] != ':' {
        assert IsDigitChar(t[i]) || t[i] == '-';
      }
      UpperKeepsColonAbsent(t);
      assert |Upper(t)| < 3 || Upper(t)[2] != u[2];
    case JStr(_) =>
    case JList(_) =>
      assert Upper(Str(j))[0] == '[';
    case JDict(_) =>
      assert Upper(Str(j))[0] == '{';
  }
}
