/** `getRemoteDeviceIp`: device offsets as addresses of 10.13.0.0/16. */
module Addressing {
  import opened Text

  const BASE: nat := 10 * 0x100_0000 + 13 * 0x1_0000

  /** Offsets whose address exists in IPv4; the increment is `offset + 2` above the network address. */
  type Offset = o: int | -2 - BASE <= o < 0x1_0000_0000 - BASE - 2

  type Address = a: nat | a < 0x1_0000_0000

  function AddressOf(offset: Offset): Address {
    BASE + offset + 2
  }

  function Octet(a: Address, i: nat): (o: nat)
    requires i < 4
    ensures o < 256
  {
    if i == 0 then a / 0x100_0000
    else if i == 1 then a / 0x1_0000 % 256
    else if i == 2 then a / 0x100 % 256
    else a % 256
  }

  function Quad(a: Address): string {
    Digits(Octet(a, 0)) + "." + (Digits(Octet(a, 1)) + "." + (Digits(Octet(a, 2)) + "." + Digits(Octet(a, 3))))
  }

  function DeviceIp(offset: Offset): string {
    Quad(AddressOf(offset))
  }

  /** The AllowedIPs entry of a wireguard peer. */
  function AllowedIps(offset: Offset): string {
    DeviceIp(offset) + "/32"
  }

  lemma {:induction false} OctetsDetermine(a: Address, b: Address)
    requires forall i :: 0 <= i < 4 ==> Octet(a, i) == Octet(b, i)
    ensures a == b
  {
    assert Octet(a, 0) == Octet(b, 0) && Octet(a, 1) == Octet(b, 1);
    assert Octet(a, 2) == Octet(b, 2) && Octet(a, 3) == Octet(b, 3);
    Recompose(a);
    Recompose(b);
  }

  lemma Recompose(a: Address)
    ensures a == ((Octet(a, 0) * 256 + Octet(a, 1)) * 256 + Octet(a, 2)) * 256 + Octet(a, 3)
  {
    assert a / 0x1_0000 / 256 == a / 0x100_0000;
    assert a / 0x100 / 256 == a / 0x1_0000;
  }

  lemma {:induction false} QuadInjective(a: Address, b: Address)
    ensures Quad(a) == Quad(b) ==> a == b
  {
    if Quad(a) == Quad(b) {
      var x0, x1, x2, x3 := Digits(Octet(a, 0)), Digits(Octet(a, 1)), Digits(Octet(a, 2)), Digits(Octet(a, 3));
      var y0, y1, y2, y3 := Digits(Octet(b, 0)), Digits(Octet(b, 1)), Digits(Octet(b, 2)), Digits(Octet(b, 3));
      SplitFirst(x0, y0, x1 + "." + (x2 + "." + x3), y1 + "." + (y2 + "." + y3), '.');
      SplitFirst(x1, y1, x2 + "." + x3, y2 + "." + y3, '.');
      SplitFirst(x2, y2, x3, y3, '.');
      forall i | 0 <= i < 4 ensures Octet(a, i) == Octet(b, i) {
        DigitsInjective(Octet(a, i), Octet(b, i));
      }
      OctetsDetermine(a, b);
    }
  }

  /** Distinct offsets have distinct addresses and distinct peer entries. */
  lemma {:induction false} DeviceIpInjective(o1: Offset, o2: Offset)
    ensures DeviceIp(o1) == DeviceIp(o2) <==> o1 == o2
    ensures AllowedIps(o1) == AllowedIps(o2) <==> o1 == o2
  {
    QuadInjective(AddressOf(o1), AddressOf(o2));
    if AllowedIps(o1) == AllowedIps(o2) {
      var n := |AllowedIps(o1)| - 3;
      assert DeviceIp(o1) == AllowedIps(o1)[..n] && DeviceIp(o2) == AllowedIps(o2)[..n];
    }
  }

  /** Exactly the offsets -2..65533 stay inside 10.13.0.0/16. */
  lemma InsideNetwork(offset: Offset)
    ensures Octet(AddressOf(offset), 0) == 10 && Octet(AddressOf(offset), 1) == 13 <==> -2 <= offset <= 65533
  {
    Recompose(AddressOf(offset));
  }

  lemma OneDigit(n: nat)
    requires n < 10
    ensures Digits(n) == [('0' as int + n) as char]
  {
  }

  lemma TwoDigits(m: nat, n: nat)
    requires 0 < m < 10 && n < 10
    ensures Digits(10 * m + n) == [('0' as int + m) as char, ('0' as int + n) as char]
  {
    OneDigit(m);
    assert (10 * m + n) / 10 == m && (10 * m + n) % 10 == n;
  }

  lemma {:induction false} LastOctets(offset: Offset)
    requires -2 <= offset <= 65533
    ensures Octet(AddressOf(offset), 2) == (offset + 2) / 256 && Octet(AddressOf(offset), 3) == (offset + 2) % 256
  {
    var x := offset + 2;
    assert BASE == 256 * 0xA_0D00 && (BASE + x) / 256 == 0xA_0D00 + x / 256;
  }

  /** Inside the network: the last two numbers are those of offset + 2, in base 256. */
  lemma {:induction false} DeviceIpSpelled(offset: Offset)
    requires -2 <= offset <= 65533
    ensures DeviceIp(offset) == "10.13." + Digits((offset + 2) / 256) + "." + Digits((offset + 2) % 256)
    ensures AllowedIps(offset) == DeviceIp(offset) + "/32"
  {
    InsideNetwork(offset);
    LastOctets(offset);
    TwoDigits(1, 0);
    TwoDigits(1, 3);
    assert "10" + "." + ("13" + ".") == "10.13.";
  }

  lemma {:induction false} ServerOffset(offset: Offset)
    requires offset == 3327
    ensures DeviceIp(offset) == "10.13.13.1"
  {
    DeviceIpSpelled(offset);
    assert (offset + 2) / 256 == 13 && (offset + 2) % 256 == 1;
    TwoDigits(1, 3);
    OneDigit(1);
  }

  /** One device offset is given the wireguard server's own address, and it is 3327. */
  lemma {:induction false} ServerAddressClash(offset: Offset)
    ensures DeviceIp(offset) == "10.13.13.1" <==> offset == 3327
  {
    var server: Offset := 3327;
    ServerOffset(server);
    DeviceIpInjective(offset, server);
  }
}
