/** Device records as the `scan` command builds them, the attribute access
    helpers behind them, and the list shaping (`--filter`, `--type`,
    `--sort`) applied before output. */
module Devices {
  import opened Wrappers
  import opened TextOps
  import opened Seqs
  import opened Sorting

  // ---------------------------------------------------------------------------
  // Attribute access on a device handle
  // ---------------------------------------------------------------------------

  /** What `getattr(dev, name)` meets on a device handle: no such attribute,
      an attribute whose getter raises, the value `None`, or a value. */
  datatype Attr<+V> = Missing | Raises | NoneValue | Value(v: V)

  /** `_safe(dev, name, default)`: the attribute's value when it exists,
      does not raise and is not None; the default in the three other cases. */
  function Safe<V>(a: Attr<V>, default: V): (r: V)
    ensures a.Value? ==> r == a.v
    ensures !a.Value? ==> r == default
  {
    if a.Value? then a.v else default
  }

  /** `_safe(dev, name)` with the default left at None. */
  function SafeOpt<V>(a: Attr<V>): (r: Option<V>)
    ensures r.Some? <==> a.Value?
  {
    if a.Value? then Some(a.v) else None
  }

  /** The two forms of `_safe` agree: supplying a default is the same as
      substituting it for the None the default-less form gives. */
  lemma SafeIsSafeOptOrDefault<V>(a: Attr<V>, default: V)
    ensures Safe(a, default) == SafeOpt(a).GetOr(default)
  {
  }

  // ---------------------------------------------------------------------------
  // Device type names
  // ---------------------------------------------------------------------------

  const DeviceTypePrefix: string := "DeviceType."

  /** `_clean_type(raw)`: `raw.replace("DeviceType.", "")`. */
  function CleanType(raw: string): (r: string)
    ensures !Contains(raw, DeviceTypePrefix) ==> r == raw
    ensures Contains(raw, DeviceTypePrefix) ==> |r| < |raw|
  {
    ReplaceAll(raw, DeviceTypePrefix, "")
  }

  /** `DeviceType.Plug -> Plug`: the enum prefix is stripped from a
      stringified device type and the member name is left as is. */
  lemma CleanTypeStripsEnumPrefix(member: string)
    requires !Contains(member, DeviceTypePrefix)
    ensures CleanType(DeviceTypePrefix + member) == member
  {
    var s := DeviceTypePrefix + member;
    assert s[..|DeviceTypePrefix|] == DeviceTypePrefix;
    assert s[|DeviceTypePrefix|..] == member;
  }

  // ---------------------------------------------------------------------------
  // Device records
  // ---------------------------------------------------------------------------

  /** One row of the `scan` output.  The energy columns are not modelled. */
  datatype Device = Device(
    name: string,
    mac: string,
    ip: string,
    model: string,
    kind: string,
    isOn: Option<bool>,
    rssi: Option<int>,
    brightness: Option<int>,
    firmware: Option<string>)

  /** The attributes of a device handle after `update()` (successful or
      not); `rssi` and `firmware` are the already-extracted
      `sys_info["rssi"]` and `hw_info["sw_ver"]`. */
  datatype Handle = Handle(
    alias: Attr<string>,
    mac: Attr<string>,
    model: Attr<string>,
    deviceType: Attr<string>,
    isOn: Attr<bool>,
    brightness: Attr<int>,
    rssi: Option<int>,
    firmware: Option<string>)

  /** The info dict `discover_devices` builds for one discovered host. */
  function MakeRecord(ip: string, h: Handle): (d: Device)
    ensures d.ip == ip
    ensures d.name == (if h.alias.Value? then h.alias.v else "Unknown")
    ensures d.mac == (if h.mac.Value? then h.mac.v else "Unknown")
    ensures d.model == (if h.model.Value? then h.model.v else "Unknown")
    ensures d.kind == CleanType(if h.deviceType.Value? then h.deviceType.v else "Unknown")
    ensures d.isOn.Some? <==> h.isOn.Value?
    ensures h.isOn.Value? ==> d.isOn == Some(h.isOn.v)
    ensures d.brightness.Some? <==> h.brightness.Value?
    ensures h.brightness.Value? ==> d.brightness == Some(h.brightness.v)
    ensures d.rssi == h.rssi && d.firmware == h.firmware
  {
    Device(
      Safe(h.alias, "Unknown"),
      Safe(h.mac, "Unknown"),
      ip,
      Safe(h.model, "Unknown"),
      CleanType(Safe(h.deviceType, "Unknown")),
      SafeOpt(h.isOn),
      h.rssi,
      SafeOpt(h.brightness),
      h.firmware)
  }

  /** The key of the final sort in `discover_devices`, `(name or "").lower()`,
      and of `sort_devices(..., "name")`. */
  function NameKey(d: Device): string {
    Lower(d.name)
  }

  /** The info dicts, one per discovered host, in discovery order. */
  function Records(found: seq<(string, Handle)>): (rs: seq<Device>)
    ensures |rs| == |found|
    ensures forall i :: 0 <= i < |found| ==> rs[i] == MakeRecord(found[i].0, found[i].1)
  {
    seq(|found|, i requires 0 <= i < |found| => MakeRecord(found[i].0, found[i].1))
  }

  /** `discover_devices` once discovery has returned: one record per
      discovered host, sorted by lower-cased name. */
  function DiscoverDevices(found: seq<(string, Handle)>): (ds: seq<Device>)
    ensures |ds| == |found|
    ensures multiset(ds) == multiset(Records(found))
    ensures SortedBy(ds, NameKey)
    ensures forall i :: 0 <= i < |found| ==> MakeRecord(found[i].0, found[i].1) in ds
    ensures forall k :: WithKey(ds, NameKey, k) == WithKey(Records(found), NameKey, k)
  {
    var records := Records(found);
    SortByStableAll(records, NameKey);
    var ds := SortBy(records, NameKey);
    assert |ds| == |multiset(ds)| == |multiset(records)| == |records|;
    assert forall i :: 0 <= i < |found| ==> records[i] in multiset(records);
    ds
  }

  // ---------------------------------------------------------------------------
  // Filtering: `filter_devices`
  // ---------------------------------------------------------------------------

  /** `if name_filter:` -- both None and "" leave the filter switched off. */
  predicate Active(f: Option<string>) {
    f.Some? && f.value != ""
  }

  predicate NameMatches(d: Device, f: string) {
    Contains(Lower(d.name), Lower(f))
  }

  predicate TypeMatches(d: Device, f: string) {
    Contains(Lower(d.kind), Lower(f))
  }

  /** A record survives `filter_devices(ds, nameFilter, typeFilter)`. */
  predicate Passes(d: Device, nameFilter: Option<string>, typeFilter: Option<string>) {
    && (Active(nameFilter) ==> NameMatches(d, nameFilter.value))
    && (Active(typeFilter) ==> TypeMatches(d, typeFilter.value))
  }

  function PassesFn(nameFilter: Option<string>, typeFilter: Option<string>): Device -> bool {
    d => Passes(d, nameFilter, typeFilter)
  }

  /** `[d for d in ds if n in d["name"].lower()]` when the name filter is on. */
  function NamePass(ds: seq<Device>, nameFilter: Option<string>): seq<Device> {
    if Active(nameFilter) then Filter(ds, d => NameMatches(d, nameFilter.value)) else ds
  }

  /** `[d for d in ds if t in d["type"].lower()]` when the type filter is on. */
  function TypePass(ds: seq<Device>, typeFilter: Option<string>): seq<Device> {
    if Active(typeFilter) then Filter(ds, d => TypeMatches(d, typeFilter.value)) else ds
  }

  /** The two passes keep exactly what one pass by `Passes` keeps. */
  lemma TwoPassesAreOnePass(ds: seq<Device>, nameFilter: Option<string>, typeFilter: Option<string>)
    ensures TypePass(NamePass(ds, nameFilter), typeFilter) == Filter(ds, PassesFn(nameFilter, typeFilter))
  {
    var both := PassesFn(nameFilter, typeFilter);
    if Active(nameFilter) && Active(typeFilter) {
      FilterFuse(ds, d => NameMatches(d, nameFilter.value), d => TypeMatches(d, typeFilter.value), both);
    } else if Active(nameFilter) {
      FilterExtensional(ds, d => NameMatches(d, nameFilter.value), both);
    } else if Active(typeFilter) {
      FilterExtensional(ds, d => TypeMatches(d, typeFilter.value), both);
    } else {
      FilterKeepsAll(ds, both);
    }
  }

  /** `filter_devices`: the name pass, then the type pass. */
  function FilterDevices(ds: seq<Device>, nameFilter: Option<string>, typeFilter: Option<string>): (r: seq<Device>)
    ensures r == Filter(ds, PassesFn(nameFilter, typeFilter))
    ensures IsSubseq(r, ds)
    ensures forall i :: 0 <= i < |r| ==> Passes(r[i], nameFilter, typeFilter)
    ensures forall d :: multiset(r)[d] == if Passes(d, nameFilter, typeFilter) then multiset(ds)[d] else 0
    ensures !Active(nameFilter) && !Active(typeFilter) ==> r == ds
  {
    TwoPassesAreOnePass(ds, nameFilter, typeFilter);
    TypePass(NamePass(ds, nameFilter), typeFilter)
  }

  /** Re-applying the same filters removes nothing more. */
  lemma FilterDevicesIdempotent(ds: seq<Device>, nameFilter: Option<string>, typeFilter: Option<string>)
    ensures FilterDevices(FilterDevices(ds, nameFilter, typeFilter), nameFilter, typeFilter)
         == FilterDevices(ds, nameFilter, typeFilter)
  {
    FilterIdempotent(ds, PassesFn(nameFilter, typeFilter));
  }

  // ---------------------------------------------------------------------------
  // Sorting: `sort_devices` and the `--sort` keys
  // ---------------------------------------------------------------------------

  /** The `--sort` choices. */
  datatype SortKey = ByName | ByIp | ByMac | ByModel | ByType

  /** `str(d.get(key, ""))`: every record carries all five keys as strings,
      so the lookup never falls back to "". */
  function Field(d: Device, k: SortKey): string {
    match k
    case ByName => d.name
    case ByIp => d.ip
    case ByMac => d.mac
    case ByModel => d.model
    case ByType => d.kind
  }

  function KeyFn(k: SortKey): Device -> string {
    d => Lower(Field(d, k))
  }

  /** `sort_devices(ds, key)`: a stable sort by the lower-cased field. */
  function SortDevices(ds: seq<Device>, k: SortKey): (r: seq<Device>)
    ensures multiset(r) == multiset(ds)
    ensures SortedBy(r, KeyFn(k))
    ensures forall key :: WithKey(r, KeyFn(k), key) == WithKey(ds, KeyFn(k), key)
  {
    SortByStableAll(ds, KeyFn(k));
    SortBy(ds, KeyFn(k))
  }

  /** The `scan` command only calls `sort_devices` for keys other than
      "name": the discovered list is already in name order and filtering
      keeps it so, hence sorting it again by name would change nothing. */
  lemma NameSortSkipIsSound(found: seq<(string, Handle)>, nameFilter: Option<string>, typeFilter: Option<string>)
    ensures var ds := FilterDevices(DiscoverDevices(found), nameFilter, typeFilter);
            SortDevices(ds, ByName) == ds
  {
    var discovered := DiscoverDevices(found);
    var ds := FilterDevices(discovered, nameFilter, typeFilter);
    assert forall d :: KeyFn(ByName)(d) == NameKey(d);
    assert SortedBy(discovered, KeyFn(ByName));
    FilterKeepsSorted(discovered, PassesFn(nameFilter, typeFilter), KeyFn(ByName));
    SortBySortedIsIdentity(ds, KeyFn(ByName));
  }
}
