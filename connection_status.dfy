/** The connection indicator in the page header. */
module ConnectionStatus {
  import opened Strings

  /** The status text: "Connecting..." until connected, then the number of devices when there are any. */
  function StatusLabel(connected: bool, peerCount: int): string
  {
    if connected then
      "Connected" + (if peerCount > 0 then " to " + Decimal(peerCount) + " device" + (if peerCount != 1 then "s" else "") else "")
    else "Connecting..."
  }

  lemma LabelCases(connected: bool, peerCount: int)
    ensures !connected ==> StatusLabel(connected, peerCount) == "Connecting..."
    ensures connected && peerCount <= 0 ==> StatusLabel(connected, peerCount) == "Connected"
    ensures connected && peerCount == 1 ==> StatusLabel(connected, peerCount) == "Connected to 1 device"
    ensures connected && peerCount > 1 ==> StatusLabel(connected, peerCount) == "Connected to " + Decimal(peerCount) + " devices"
  {
  }

  /** Two positive counts with the same label are the same count. */
  lemma {:induction false} CountFromLabel(a: nat, b: nat)
    requires a > 0 && b > 0 && StatusLabel(true, a) == StatusLabel(true, b)
    ensures a == b
  {
    var p := "Connected to ";
    var da, db := Decimal(a), Decimal(b);
    var la, lb := StatusLabel(true, a), StatusLabel(true, b);
    assert la == p + da + " device" + (if a != 1 then "s" else "");
    assert lb == p + db + " device" + (if b != 1 then "s" else "");
    assert la[|p| + |da|] == ' ';
    assert lb[|p| + |db|] == ' ';
    assert da == la[|p|..|p| + |da|] == db;
    DecimalInjective(a, b);
  }

  /** The label tells whether the page is connected and, when it is, how many devices there are (0 for none). */
  lemma LabelDeterminesState(c1: bool, n1: int, c2: bool, n2: int)
    requires StatusLabel(c1, n1) == StatusLabel(c2, n2)
    ensures c1 == c2
    ensures c1 ==> (if n1 > 0 then n1 else 0) == (if n2 > 0 then n2 else 0)
  {
    var l := StatusLabel(c1, n1);
    if c1 && (n1 > 0 || n2 > 0) {
      assert |StatusLabel(true, n1)| != 9 || n1 <= 0;
      if n1 > 0 && n2 > 0 {
        CountFromLabel(n1, n2);
      }
    }
  }
}
