/** The network configuration that the collection step reads, and the rows it writes. */
module Devices {
  type uint8 = x: int | 0 <= x < 0x100
  type uint16 = x: int | 0 <= x < 0x1_0000
  type uint32 = x: int | 0 <= x < 0x1_0000_0000
  type Mac = m: seq<uint8> | |m| == 6 witness [0, 0, 0, 0, 0, 0]

  datatype Ipv6Address = Ipv6Address(w0: uint32, w1: uint32, w2: uint32, w3: uint32)

  /** One entry of a device's IPv6 address list, with the two flags the collection looks at. */
  datatype Ipv6Assignment = Ipv6Assignment(address: Ipv6Address, temporary: bool, permanent: bool)

  /** A network device. `realDev` is the index of the device that carries a VLAN device. */
  datatype NetDevice = NetDevice(
    ifindex: nat, isVlan: bool, realDev: nat, isUp: bool, mac: Mac, vid: uint16,
    ipv4: seq<uint32>, ipv6: seq<Ipv6Assignment>)

  datatype ArpEntry = ArpEntry(ip: uint32, mac: Mac, isVlan: bool, vid: uint16)
  datatype NdpEntry = NdpEntry(ip: Ipv6Address, mac: Mac, isVlan: bool, vid: uint16)

  /** Whether the VLAN pass collects the addresses of `d` for the physical device `netdev`. */
  predicate IsActiveVlanOf(netdev: NetDevice, d: NetDevice) {
    d.isVlan && d.realDev == netdev.ifindex && d.isUp
  }

  /** A device together with the pass that reads it: the physical pass or the VLAN pass. */
  datatype Source = Source(device: NetDevice, asVlan: bool) {
    function Vid(): uint16 { if asVlan then device.vid else 0 }

    function ArpRow(ip: uint32): ArpEntry { ArpEntry(ip, device.mac, asVlan, Vid()) }

    function NdpRow(a: Ipv6Assignment): NdpEntry { NdpEntry(a.address, device.mac, asVlan, Vid()) }

    function ArpRows(): seq<ArpEntry> {
      seq(|device.ipv4|, i requires 0 <= i < |device.ipv4| => ArpRow(device.ipv4[i]))
    }
  }

  /**
    The devices in the order in which they are read: first the physical device, then every entry of
    the device list. An entry that the VLAN pass skips counts as a device without addresses.
   */
  function Visited(netdev: NetDevice, devices: seq<NetDevice>, i: nat): Source
    requires i <= |devices|
  {
    if i == 0 then Source(netdev, false)
    else if IsActiveVlanOf(netdev, devices[i - 1]) then Source(devices[i - 1], true)
    else Source(devices[i - 1].(ipv4 := [], ipv6 := []), true)
  }
}
