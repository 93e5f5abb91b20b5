/** The logic of the Wi-Fi setup portal (setup_portal.py) apart from its
    servers: the signal-strength label of a network, the list of networks
    offered after a scan, and the SSID saved from the submitted form. */
module SetupPortal {

  import opened Wire
  import opened Sorting
  import opened FormData

  /** The signal label shown next to a network: four characters, more stars
      for a stronger signal. */
  function SignalLabel(rssi: int): (shown: string)
    ensures |shown| == 4
    ensures shown[0] == '*'
  {
    if rssi > -50 then "****"
    else if rssi > -60 then "*** "
    else if rssi > -70 then "**  "
    else "*   "
  }

  /** The number of stars in a label. */
  function Stars(s: string): nat
    decreases |s|
  {
    if s == [] then 0 else (if s[0] == '*' then 1 else 0) + Stars(s[1..])
  }

  /** A stronger signal never gets fewer stars, and the four buckets are
      split at -50, -60 and -70. */
  lemma SignalLabelMonotone(weaker: int, stronger: int)
    requires weaker <= stronger
    ensures 1 <= Stars(SignalLabel(weaker)) <= Stars(SignalLabel(stronger)) <= 4
    ensures Stars(SignalLabel(stronger)) == (if stronger > -50 then 4 else if stronger > -60 then 3 else if stronger > -70 then 2 else 1)
  {
    assert Stars("****") == 4 by {
      assert "****"[1..] == "***";
      assert "***"[1..] == "**";
      assert "**"[1..] == "*";
    }
    assert Stars("*** ") == 3 by {
      assert "*** "[1..] == "** ";
      assert "** "[1..] == "* ";
      assert "* "[1..] == " ";
    }
    assert Stars("**  ") == 2 by {
      assert "**  "[1..] == "*  ";
      assert "*  "[1..] == "  ";
      assert "  "[1..] == " ";
    }
    assert Stars("*   ") == 1 by {
      assert "*   "[1..] == "   ";
      assert "   "[1..] == "  ";
      assert "  "[1..] == " ";
    }
  }

  /** One result of a Wi-Fi scan: (ssid, bssid, channel, RSSI, security,
      hidden), keeping the fields the portal reads. */
  datatype ScanResult = ScanResult(ssid: Bytes, rssi: int, security: int)

  /** What the page offers for a network: its name, signal and whether it is secured. */
  datatype Network = Network(ssid: string, rssi: int, secured: bool)

  function NetworkOf(r: ScanResult): (n: Network)
    ensures n.rssi == r.rssi && (n.ssid == "" <==> r.ssid == [])
  {
    Network(Text(r.ssid), r.rssi, r.security != 0)
  }

  /** The key that sorts strongest first: sorting by RSSI with reverse=True
      orders as an ascending sort on the negated key does. Among networks of
      equal RSSI the model keeps scan order. */
  function Strength(r: ScanResult): int {
    -r.rssi
  }

  function Ssids(networks: seq<Network>): set<string> {
    set n | n in networks :: n.ssid
  }

  /** The networks kept from a list already in order: the first network of
      every non-empty SSID. */
  function Dedupe(results: seq<ScanResult>): seq<Network>
    decreases |results|
  {
    if results == [] then []
    else
      var kept := Dedupe(results[..|results| - 1]);
      var n := NetworkOf(results[|results| - 1]);
      if n.ssid != "" && n.ssid !in Ssids(kept) then kept + [n] else kept
  }

  /** The networks of a scan as the portal offers them. */
  function NetworksOf(scan: seq<ScanResult>): seq<Network> {
    Dedupe(SortBy(scan, Strength))
  }

  /** Dedupe of one more result: the result is kept exactly when its SSID is
      non-empty and not kept yet. */
  lemma DedupeStep(networks: seq<ScanResult>, k: nat, kept: seq<Network>, n: Network)
    requires k < |networks| && kept == Dedupe(networks[..k]) && n == NetworkOf(networks[k])
    ensures Dedupe(networks[..k + 1]) == if n.ssid != "" && n.ssid !in Ssids(kept) then kept + [n] else kept
    ensures Ssids(kept + [n]) == Ssids(kept) + {n.ssid}
  {
    assert networks[..k + 1][..k] == networks[..k];
    assert forall m :: m in kept + [n] <==> m in kept || m == n;
  }

  /** scan_networks after the scan itself. */
  method CollectNetworks(scan: seq<ScanResult>) returns (result: seq<Network>)
    ensures result == NetworksOf(scan)
  {
    var networks := SortBy(scan, Strength);
    result := [];
    var seenSsids: set<string> := {};
    for k := 0 to |networks|
      invariant result == Dedupe(networks[..k])
      invariant seenSsids == Ssids(result)
    {
      var net := networks[k];
      var ssid := Text(net.ssid);
      var rssi := net.rssi;
      var security := net.security != 0;
      DedupeStep(networks, k, result, Network(ssid, rssi, security));
      if ssid != "" && ssid !in seenSsids {
        result := result + [Network(ssid, rssi, security)];
        seenSsids := seenSsids + {ssid};
      }
    }
    assert networks[..|networks|] == networks;
  }

  /** What Dedupe keeps: every entry is the first one of its SSID, so no SSID
      shows twice and none is empty, and no non-empty SSID is lost. */
  lemma {:induction false} DedupeShape(results: seq<ScanResult>)
    ensures forall n :: n in Dedupe(results) ==> n.ssid != ""
    ensures forall i, j :: 0 <= i < j < |Dedupe(results)| ==> Dedupe(results)[i].ssid != Dedupe(results)[j].ssid
    ensures forall n :: n in Dedupe(results) ==>
              exists k :: 0 <= k < |results| && NetworkOf(results[k]) == n
                && forall m :: 0 <= m < k ==> NetworkOf(results[m]).ssid != n.ssid
    ensures forall k :: 0 <= k < |results| && results[k].ssid != [] ==> NetworkOf(results[k]).ssid in Ssids(Dedupe(results))
    decreases |results|
  {
    if results != [] {
      var init := results[..|results| - 1];
      var last := |results| - 1;
      DedupeShape(init);
      var kept := Dedupe(init);
      var n := NetworkOf(results[last]);
      assert forall k :: 0 <= k < last ==> results[k] == init[k];
      if n.ssid != "" && n.ssid !in Ssids(kept) {
        assert Dedupe(results) == kept + [n];
        forall i | 0 <= i < |kept| ensures kept[i].ssid != n.ssid {
          assert kept[i] in kept;
        }
      }
    }
  }

  /** On a list in strongest-first order the kept networks are strongest
      first too. */
  lemma {:induction false} DedupeOrdered(results: seq<ScanResult>)
    requires Sorted(results, Strength)
    ensures forall i, j :: 0 <= i < j < |Dedupe(results)| ==> Dedupe(results)[i].rssi >= Dedupe(results)[j].rssi
    decreases |results|
  {
    if results != [] {
      var init := results[..|results| - 1];
      var last := |results| - 1;
      assert Sorted(init, Strength) by {
        forall i, j | 0 <= i < j < |init| ensures Strength(init[i]) <= Strength(init[j]) {
          assert init[i] == results[i] && init[j] == results[j];
        }
      }
      DedupeOrdered(init);
      DedupeShape(init);
      var kept := Dedupe(init);
      forall o | o in kept ensures o.rssi >= results[last].rssi {
        var k :| 0 <= k < |init| && NetworkOf(init[k]) == o
                 && forall m :: 0 <= m < k ==> NetworkOf(init[m]).ssid != o.ssid;
        assert init[k] == results[k];
      }
    }
  }

  /** On a list in strongest-first order each kept network carries the
      strongest signal its SSID was seen with. */
  lemma DedupeStrongest(results: seq<ScanResult>)
    requires Sorted(results, Strength)
    ensures forall n, k :: n in Dedupe(results) && 0 <= k < |results| && NetworkOf(results[k]).ssid == n.ssid ==>
              n.rssi >= results[k].rssi
  {
    DedupeShape(results);
    forall n, kr | n in Dedupe(results) && 0 <= kr < |results| && NetworkOf(results[kr]).ssid == n.ssid
      ensures n.rssi >= results[kr].rssi
    {
      var k :| 0 <= k < |results| && NetworkOf(results[k]) == n
               && forall m :: 0 <= m < k ==> NetworkOf(results[m]).ssid != n.ssid;
      assert k <= kr;
      assert Strength(results[k]) <= Strength(results[kr]);
    }
  }

  /** Every scan result is among the sorted ones. */
  lemma InSorted(scan: seq<ScanResult>)
    ensures forall r :: r in scan ==> r in SortBy(scan, Strength)
  {
    var sorted := SortBy(scan, Strength);
    forall r | r in scan ensures r in sorted {
      assert r in multiset(sorted);
    }
  }

  /** The networks offered: strongest first, each SSID once and never empty,
      every non-empty SSID of the scan present, and each shown with the
      strongest signal it was seen with. */
  lemma NetworksShape(scan: seq<ScanResult>)
    ensures forall i, j :: 0 <= i < j < |NetworksOf(scan)| ==> NetworksOf(scan)[i].rssi >= NetworksOf(scan)[j].rssi
    ensures forall i, j :: 0 <= i < j < |NetworksOf(scan)| ==> NetworksOf(scan)[i].ssid != NetworksOf(scan)[j].ssid
    ensures forall n :: n in NetworksOf(scan) ==> n.ssid != ""
    ensures forall r :: r in scan && r.ssid != [] ==> NetworkOf(r).ssid in Ssids(NetworksOf(scan))
    ensures forall n, r :: n in NetworksOf(scan) && r in scan && NetworkOf(r).ssid == n.ssid ==> n.rssi >= r.rssi
  {
    var sorted := SortBy(scan, Strength);
    DedupeShape(sorted);
    DedupeOrdered(sorted);
    DedupeStrongest(sorted);
    InSorted(scan);
    forall r | r in scan ensures exists k :: 0 <= k < |sorted| && sorted[k] == r {
      var k :| 0 <= k < |sorted| && sorted[k] == r;
    }
  }

  /** The SSID save_config writes: the typed-in one when "__manual__" was
      chosen from the list, the chosen one otherwise, "" when missing. */
  function ChosenSsid(params: Params): (ssid: string)
    ensures "ssid" !in params ==> ssid == ""
    ensures "ssid" in params && params["ssid"] != "__manual__" ==> ssid == params["ssid"]
    ensures "ssid" in params && params["ssid"] == "__manual__" ==>
              ssid == (if "ssid_manual" in params then params["ssid_manual"] else "")
  {
    var ssid := if "ssid" in params then params["ssid"] else "";
    if ssid == "__manual__" then (if "ssid_manual" in params then params["ssid_manual"] else "") else ssid
  }

  /** For a submitted setup form: the network picked from the list is saved,
      unless the manual entry was picked, in which case the typed name is. */
  lemma ChosenFromForm(picked: string, typed: string)
    requires IsLatin1(picked) && IsLatin1(typed)
    ensures picked != "__manual__" ==> ChosenSsid(ParamsOf(EncodeForm([("ssid", picked), ("ssid_manual", typed)]))) == picked
    ensures picked == "__manual__" ==> ChosenSsid(ParamsOf(EncodeForm([("ssid", picked), ("ssid_manual", typed)]))) == typed
  {
    var entries := [("ssid", picked), ("ssid_manual", typed)];
    FormRoundTrip(entries);
    assert ParamsOf(EncodeForm(entries))[entries[0].0] == picked;
    assert ParamsOf(EncodeForm(entries))[entries[1].0] == typed;
  }
}
