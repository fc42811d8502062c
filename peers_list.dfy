/** The list of nearby devices: the icon chosen from a device name, and which entry is highlighted. */
module PeersList {
  import opened Wrappers
  import opened Strings
  import opened PeerConnection

  datatype DeviceIcon = Smartphone | Tablet | Laptop | Monitor

  /** `getDeviceIcon(name)`: keyword tests on the lower-cased name, phones first. */
  function GetDeviceIcon(name: string): (icon: DeviceIcon)
  {
    var lowerName := ToLower(name);
    if Contains(lowerName, "phone") || Contains(lowerName, "android") || Contains(lowerName, "iphone") then Smartphone
    else if Contains(lowerName, "ipad") || Contains(lowerName, "tablet") then Tablet
    else if Contains(lowerName, "mac") || Contains(lowerName, "book") then Laptop
    else Monitor
  }

  /** The classification ignores letter case. */
  lemma DeviceIconCaseInsensitive(name: string)
    ensures GetDeviceIcon(ToLower(name)) == GetDeviceIcon(name)
  {
    ToLowerIdempotent(name);
  }

  /** Any name mentioning "iphone" also mentions "phone": the third smartphone keyword never decides anything. */
  lemma IPhoneImpliesPhone(s: string)
    requires Contains(s, "iphone")
    ensures Contains(s, "phone")
  {
    var i :| 0 <= i <= |s| - 6 && OccursAt(s, "iphone", i);
    assert s[i..i + 6] == "iphone";
    assert s[i + 1..i + 6] == "iphone"[1..] == "phone";
    assert OccursAt(s, "phone", i + 1);
  }

  /**
   * The order of the tests decides: a name with a phone keyword is a
   * smartphone whatever else it says; tablet keywords come next, then
   * laptop keywords; every other name is a monitor.
   */
  lemma DeviceIconPrecedence(name: string)
    ensures var n := ToLower(name);
      && (GetDeviceIcon(name) == Smartphone <==> Contains(n, "phone") || Contains(n, "android"))
      && (GetDeviceIcon(name) == Tablet <==>
            !Contains(n, "phone") && !Contains(n, "android") && (Contains(n, "ipad") || Contains(n, "tablet")))
      && (GetDeviceIcon(name) == Laptop <==>
            !Contains(n, "phone") && !Contains(n, "android") && !Contains(n, "ipad") && !Contains(n, "tablet")
            && (Contains(n, "mac") || Contains(n, "book")))
  {
    var n := ToLower(name);
    if Contains(n, "iphone") {
      IPhoneImpliesPhone(n);
    }
  }

  /** `sub` cannot occur in `s` when one of its characters is missing from `s`. */
  lemma MissingCharNotContained(s: string, sub: string, c: char)
    requires c in sub && c !in s
    ensures !Contains(s, sub)
  {
  }

  /** Names without phone or tablet keywords that mention "mac" or "book" are laptops. */
  lemma LaptopByKeyword(name: string)
    requires var n := ToLower(name);
      !Contains(n, "phone") && !Contains(n, "android") && !Contains(n, "iphone")
      && !Contains(n, "ipad") && !Contains(n, "tablet") && (Contains(n, "mac") || Contains(n, "book"))
    ensures GetDeviceIcon(name) == Laptop
  {
  }

  /** Names without any keyword are monitors. */
  lemma MonitorByKeyword(name: string)
    requires var n := ToLower(name);
      !Contains(n, "phone") && !Contains(n, "android") && !Contains(n, "iphone")
      && !Contains(n, "ipad") && !Contains(n, "tablet") && !Contains(n, "mac") && !Contains(n, "book")
    ensures GetDeviceIcon(name) == Monitor
  {
  }

  lemma LowerMacBookPro()
    ensures ToLower("MacBook Pro") == "macbook pro"
  {
  }

  /** "macbook pro" holds none of the phone or tablet keywords. */
  lemma MacBookProNoPhoneKeyword()
    ensures var n := "macbook pro";
      !Contains(n, "phone") && !Contains(n, "android") && !Contains(n, "iphone")
      && !Contains(n, "ipad") && !Contains(n, "tablet")
  {
    var n := "macbook pro";
    MissingCharNotContained(n, "phone", 'h');
    MissingCharNotContained(n, "android", 'n');
    MissingCharNotContained(n, "iphone", 'h');
    MissingCharNotContained(n, "ipad", 'i');
    MissingCharNotContained(n, "tablet", 't');
  }

  /** "MacBook Pro", the first mock device, is a laptop. */
  lemma MacBookIsLaptop()
    ensures GetDeviceIcon("MacBook Pro") == Laptop
  {
    LowerMacBookPro();
    MacBookProNoPhoneKeyword();
    assert OccursAt("macbook pro", "mac", 0);
    LaptopByKeyword("MacBook Pro");
  }

  lemma LowerWindowsDesktop()
    ensures ToLower("Windows Desktop") == "windows desktop"
  {
  }

  /** "windows desktop" holds none of the phone or tablet keywords. */
  lemma WindowsDesktopNoPhoneKeyword()
    ensures var n := "windows desktop";
      !Contains(n, "phone") && !Contains(n, "android") && !Contains(n, "iphone")
      && !Contains(n, "ipad") && !Contains(n, "tablet")
  {
    var n := "windows desktop";
    MissingCharNotContained(n, "phone", 'h');
    MissingCharNotContained(n, "android", 'a');
    MissingCharNotContained(n, "iphone", 'h');
    MissingCharNotContained(n, "ipad", 'a');
    MissingCharNotContained(n, "tablet", 'a');
  }

  /** "windows desktop" holds neither laptop keyword. */
  lemma WindowsDesktopNoLaptopKeyword()
    ensures var n := "windows desktop";
      !Contains(n, "mac") && !Contains(n, "book")
  {
    var n := "windows desktop";
    MissingCharNotContained(n, "mac", 'm');
    MissingCharNotContained(n, "book", 'b');
  }

  /** "Windows Desktop", the second mock device, is a monitor. */
  lemma WindowsDesktopIsMonitor()
    ensures GetDeviceIcon("Windows Desktop") == Monitor
  {
    LowerWindowsDesktop();
    WindowsDesktopNoPhoneKeyword();
    WindowsDesktopNoLaptopKeyword();
    MonitorByKeyword("Windows Desktop");
  }

  /** "Android Phone", the third mock device, is a smartphone. */
  lemma AndroidPhoneIsSmartphone()
    ensures GetDeviceIcon("Android Phone") == Smartphone
  {
    var n := "android phone";
    assert ToLower("Android Phone") == n;
    assert OccursAt(n, "phone", 8);
  }

  /** Phone keywords are tested first: "Android Tablet" is a smartphone. */
  lemma AndroidTabletIsSmartphone()
    ensures GetDeviceIcon("Android Tablet") == Smartphone
  {
    var n := "android tablet";
    assert ToLower("Android Tablet") == n;
    assert OccursAt(n, "android", 0);
  }

  /** A peer button is highlighted exactly when its id is the selected one. */
  function IsSelected(peer: PeerData, selectedPeerId: string): bool
  {
    selectedPeerId == peer.id
  }

  /** The count badge: the number of peers, shown only for a non-empty list. */
  function CountBadge(peers: seq<PeerData>): Option<string>
  {
    if |peers| > 0 then Some(Decimal(|peers|)) else None
  }

  /** The "Scanning for devices..." placeholder is shown only for an empty list. */
  function ShowsScanning(peers: seq<PeerData>): bool
  {
    |peers| == 0
  }

  /**
   * Exactly one of the badge and the placeholder is shown, and the badge,
   * read back, is the number of peers listed.
   */
  lemma BadgeCountsPeers(peers: seq<PeerData>)
    ensures CountBadge(peers).Some? <==> !ShowsScanning(peers)
    ensures CountBadge(peers).Some? ==> DecimalValue(CountBadge(peers).value) == |peers|
  {
    if |peers| > 0 {
      DecimalRoundTrip(|peers|);
    }
  }

  /** The peers the manager reports have distinct ids, so at most one of them is highlighted. */
  lemma AtMostOneSelected(t: PeerTable, selectedPeerId: string, i: nat, j: nat)
    requires t.Valid()
    requires i < t.Size() && j < t.Size()
    requires IsSelected(t.Values()[i], selectedPeerId) && IsSelected(t.Values()[j], selectedPeerId)
    ensures i == j
  {
  }
}
