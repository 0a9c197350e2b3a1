/** The comparison behind `diff`: both device lists are indexed by MAC
    address and the four kinds of change are derived from the two indexes.
    Only the content of the report is modelled, not the order in which
    `print_diff` lists it. */
module BaselineDiff {
  import opened Wrappers
  import opened Devices

  /** Some record of `ds` carries `mac`. */
  predicate HasMac(ds: seq<Device>, mac: string) {
    exists i :: 0 <= i < |ds| && ds[i].mac == mac
  }

  /** `ds[i]` is the last record of `ds` with its MAC address. */
  predicate IsLastWithMac(ds: seq<Device>, i: int) {
    && 0 <= i < |ds|
    && forall j :: i < j < |ds| ==> ds[j].mac != ds[i].mac
  }

  /** `{d["mac"]: d for d in ds}`: one entry per MAC address present, and
      when a MAC address repeats, the later record overwrites the earlier. */
  function Index(ds: seq<Device>): (m: map<string, Device>)
    ensures forall mac :: mac in m <==> HasMac(ds, mac)
    ensures forall i :: IsLastWithMac(ds, i) ==> ds[i].mac in m && m[ds[i].mac] == ds[i]
    decreases |ds|
  {
    if ds == [] then
      map[]
    else
      var n := |ds| - 1;
      var m := Index(ds[..n]);
      IndexStep(ds);
      m[ds[n].mac := ds[n]]
  }

  lemma IndexStep(ds: seq<Device>)
    requires ds != []
    ensures forall mac :: HasMac(ds, mac) <==> HasMac(ds[..|ds| - 1], mac) || ds[|ds| - 1].mac == mac
    ensures forall i :: IsLastWithMac(ds, i) && i < |ds| - 1 ==>
              IsLastWithMac(ds[..|ds| - 1], i) && ds[i].mac != ds[|ds| - 1].mac
  {
    var n := |ds| - 1;
    forall mac | HasMac(ds, mac) && ds[n].mac != mac ensures HasMac(ds[..n], mac) {
      var i :| 0 <= i < |ds| && ds[i].mac == mac;
      assert ds[..n][i] == ds[i];
    }
    forall mac | HasMac(ds[..n], mac) ensures HasMac(ds, mac) {
      var i :| 0 <= i < n && ds[..n][i].mac == mac;
      assert ds[i] == ds[..n][i];
    }
  }

  /** The record `Index` keeps for a MAC address sits at the last position
      carrying that address. */
  lemma LastWithMac(ds: seq<Device>, mac: string) returns (i: nat)
    requires HasMac(ds, mac)
    ensures IsLastWithMac(ds, i) && ds[i].mac == mac
    decreases |ds|
  {
    var n := |ds| - 1;
    if ds[n].mac == mac {
      i := n;
    } else {
      var prefix := ds[..n];
      var k :| 0 <= k < |ds| && ds[k].mac == mac;
      assert prefix[k] == ds[k];
      i := LastWithMac(prefix, mac);
      forall j | i < j < |ds| ensures ds[j].mac != ds[i].mac {
        if j < n {
          assert ds[j] == prefix[j] && ds[i] == prefix[i];
        }
      }
    }
  }

  /** A changed attribute: the baseline record and the current one. */
  datatype Change = Change(before: Device, after: Device)

  /** What `print_diff` reports, keyed by MAC address. */
  datatype Report = Report(
    added: map<string, Device>,
    removed: map<string, Device>,
    ipChanged: map<string, Change>,
    nameChanged: map<string, Change>)

  /** `not any([new_devs, missing, ip_changes, name_changes])`. */
  predicate NoChanges(r: Report) {
    r.added == map[] && r.removed == map[] && r.ipChanged == map[] && r.nameChanged == map[]
  }

  /** The current and baseline records a common MAC address resolves to. */
  predicate Paired(current: seq<Device>, baseline: seq<Device>, i: int, j: int) {
    IsLastWithMac(current, i) && IsLastWithMac(baseline, j) && current[i].mac == baseline[j].mac
  }

  /** The report for the current scan against the saved baseline.  A MAC
      address is new when only the current scan has it and missing when
      only the baseline has it; for an address in both, the address and
      the name of the surviving records are compared independently. */
  function Diff(current: seq<Device>, baseline: seq<Device>): (r: Report)
    ensures forall mac :: mac in r.added <==> HasMac(current, mac) && !HasMac(baseline, mac)
    ensures forall mac :: mac in r.removed <==> HasMac(baseline, mac) && !HasMac(current, mac)
    ensures forall i :: IsLastWithMac(current, i) && current[i].mac in r.added ==> r.added[current[i].mac] == current[i]
    ensures forall j :: IsLastWithMac(baseline, j) && baseline[j].mac in r.removed ==> r.removed[baseline[j].mac] == baseline[j]
    ensures forall mac :: mac in r.ipChanged || mac in r.nameChanged ==> HasMac(current, mac) && HasMac(baseline, mac)
    ensures forall i, j :: Paired(current, baseline, i, j) ==>
              && (current[i].mac in r.ipChanged <==> current[i].ip != baseline[j].ip)
              && (current[i].mac in r.nameChanged <==> current[i].name != baseline[j].name)
              && (current[i].mac in r.ipChanged ==> r.ipChanged[current[i].mac] == Change(baseline[j], current[i]))
              && (current[i].mac in r.nameChanged ==> r.nameChanged[current[i].mac] == Change(baseline[j], current[i]))
  {
    Compare(Index(current), Index(baseline))
  }

  /** The four comprehensions of `print_diff` over the two indexes. */
  function Compare(cur: map<string, Device>, bl: map<string, Device>): (r: Report)
    ensures r.added.Keys !! bl.Keys && r.removed.Keys !! cur.Keys
    ensures r.added.Keys + r.removed.Keys + (cur.Keys * bl.Keys) == cur.Keys + bl.Keys
    ensures r.ipChanged.Keys <= cur.Keys * bl.Keys && r.nameChanged.Keys <= cur.Keys * bl.Keys
  {
    Report(
      cur - bl.Keys,
      bl - cur.Keys,
      map mac | mac in cur && mac in bl && cur[mac].ip != bl[mac].ip :: Change(bl[mac], cur[mac]),
      map mac | mac in cur && mac in bl && cur[mac].name != bl[mac].name :: Change(bl[mac], cur[mac]))
  }

  /** A list compared with itself shows no change, so "No changes
      detected." is printed right after saving a baseline. */
  lemma DiffWithSelfIsEmpty(ds: seq<Device>)
    ensures NoChanges(Diff(ds, ds))
  {
    var r := Diff(ds, ds);
    forall mac ensures mac !in r.ipChanged && mac !in r.nameChanged {
      if HasMac(ds, mac) {
        var i := LastWithMac(ds, mac);
        assert Paired(ds, ds, i, i);
      }
    }
    assert r.ipChanged.Keys == {};
    assert r.nameChanged.Keys == {};
  }

  /** "No changes" is reported exactly when both lists carry the same MAC
      addresses and every address's surviving records agree on address and
      name; other fields (model, state, signal) are not compared. */
  lemma NoChangesIff(current: seq<Device>, baseline: seq<Device>)
    ensures NoChanges(Diff(current, baseline)) <==>
              && (forall mac :: HasMac(current, mac) <==> HasMac(baseline, mac))
              && (forall i, j :: Paired(current, baseline, i, j) ==>
                    current[i].ip == baseline[j].ip && current[i].name == baseline[j].name)
  {
    var r := Diff(current, baseline);
    if NoChanges(r) {
      forall mac ensures HasMac(current, mac) <==> HasMac(baseline, mac) {
        assert mac !in r.added && mac !in r.removed;
      }
      forall i, j | Paired(current, baseline, i, j)
        ensures current[i].ip == baseline[j].ip && current[i].name == baseline[j].name
      {
        assert current[i].mac !in r.ipChanged && current[i].mac !in r.nameChanged;
      }
    }
    if forall mac :: HasMac(current, mac) <==> HasMac(baseline, mac) {
      assert r.added.Keys == {} && r.removed.Keys == {};
      if forall i, j :: Paired(current, baseline, i, j) ==>
           current[i].ip == baseline[j].ip && current[i].name == baseline[j].name {
        forall mac ensures mac !in r.ipChanged && mac !in r.nameChanged {
          if HasMac(current, mac) && HasMac(baseline, mac) {
            var i := LastWithMac(current, mac);
            var j := LastWithMac(baseline, mac);
            assert Paired(current, baseline, i, j);
          }
        }
        assert r.ipChanged.Keys == {} && r.nameChanged.Keys == {};
      }
    }
  }

  /** Swapping the two lists swaps new and missing devices and reverses
      every change. */
  lemma DiffSwapped(current: seq<Device>, baseline: seq<Device>)
    ensures var r, s := Diff(current, baseline), Diff(baseline, current);
            && r.added == s.removed && r.removed == s.added
            && r.ipChanged.Keys == s.ipChanged.Keys
            && r.nameChanged.Keys == s.nameChanged.Keys
            && (forall mac :: mac in r.ipChanged ==>
                  s.ipChanged[mac] == Change(r.ipChanged[mac].after, r.ipChanged[mac].before))
            && (forall mac :: mac in r.nameChanged ==>
                  s.nameChanged[mac] == Change(r.nameChanged[mac].after, r.nameChanged[mac].before))
  {
    CompareSwapped(Index(current), Index(baseline));
  }

  lemma CompareSwapped(cur: map<string, Device>, bl: map<string, Device>)
    ensures var r, s := Compare(cur, bl), Compare(bl, cur);
            && r.added == s.removed && r.removed == s.added
            && r.ipChanged.Keys == s.ipChanged.Keys
            && r.nameChanged.Keys == s.nameChanged.Keys
            && (forall mac :: mac in r.ipChanged ==>
                  s.ipChanged[mac] == Change(r.ipChanged[mac].after, r.ipChanged[mac].before))
            && (forall mac :: mac in r.nameChanged ==>
                  s.nameChanged[mac] == Change(r.nameChanged[mac].after, r.nameChanged[mac].before))
  {
  }

  /** A record that differs only in name, MAC address and IP address. */
  function Plug(name: string, mac: string, ip: string): (d: Device)
    ensures d.name == name && d.mac == mac && d.ip == ip
  {
    Device(name, mac, ip, "HS103", "Plug", None, None, None, None)
  }

  /** A device that was renamed and moved shows up under both headings,
      and under no other. */
  lemma RenamedAndMovedIsReportedTwice(before: Device, after: Device)
    requires before.mac == after.mac && before.ip != after.ip && before.name != after.name
    ensures var r := Diff([after], [before]);
            && r.added == map[] && r.removed == map[]
            && r.ipChanged == map[after.mac := Change(before, after)]
            && r.nameChanged == map[after.mac := Change(before, after)]
  {
    var current, baseline := [after], [before];
    var r := Diff(current, baseline);
    assert Paired(current, baseline, 0, 0);
    forall mac ensures HasMac(current, mac) <==> mac == after.mac {
      if HasMac(current, mac) {
        var k :| 0 <= k < |current| && current[k].mac == mac;
      }
    }
    forall mac ensures HasMac(baseline, mac) <==> mac == after.mac {
      if HasMac(baseline, mac) {
        var k :| 0 <= k < |baseline| && baseline[k].mac == mac;
      }
    }
    assert r.added.Keys == {} && r.removed.Keys == {};
    assert r.ipChanged.Keys == {after.mac};
    assert r.nameChanged.Keys == {after.mac};
  }

  /** With a MAC address listed twice in the baseline, only the later
      record is compared. */
  lemma LaterDuplicateWins()
    ensures var r := Diff([Plug("Lamp", "AA", "10.0.0.3")],
                          [Plug("Lamp", "AA", "10.0.0.2"), Plug("Lamp", "AA", "10.0.0.3")]);
            NoChanges(r)
  {
    var current := [Plug("Lamp", "AA", "10.0.0.3")];
    var baseline := [Plug("Lamp", "AA", "10.0.0.2"), Plug("Lamp", "AA", "10.0.0.3")];
    assert current[0].mac == "AA" && baseline[0].mac == "AA" && baseline[1].mac == "AA";
    forall mac ensures HasMac(current, mac) <==> HasMac(baseline, mac) {
      if HasMac(baseline, mac) {
        var k :| 0 <= k < |baseline| && baseline[k].mac == mac;
        assert mac == "AA";
      }
    }
    forall i, j | Paired(current, baseline, i, j)
      ensures current[i].ip == baseline[j].ip && current[i].name == baseline[j].name
    {
      assert baseline[1].mac == baseline[0].mac;
      assert j != 0;
    }
    NoChangesIff(current, baseline);
  }
}
