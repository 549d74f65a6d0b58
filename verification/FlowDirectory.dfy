/** Addresses for a flow, from the DIF allocator: src/DIF/FA/FA.cc:428-485. */
module FlowDirectory {
  import opened Names
  import opened Flow

  /** What the flow allocator asks the DIF allocator: which applications live in this system, the
      best address of an application (UNSPECIFIED when there is none), and the names of the
      neighbours of an IPC process. */
  datatype Directory = Directory(isLocal: string -> bool, resolve: string -> Address, neighbours: string -> seq<string>)

  predicate Unspecified(a: Address) { a.ipcAddress == [] && a.difName == [] }

  /** The first neighbour in the DIF of a, or a. */
  function FirstOfDif(names: seq<string>, a: Address): Address {
    if names == [] then a
    else if ParseAddress(names[0]).difName == a.difName then ParseAddress(names[0])
    else FirstOfDif(names[1..], a)
  }

  function AddressFromDa(d: Directory, apn: string, useNeighbour: bool, isMgmt: bool): Address {
    var a := if isMgmt then ParseAddress(apn) else d.resolve(apn);
    if (!isMgmt && a == UNSPECIFIED) || !useNeighbour then a else FirstOfDif(d.neighbours(a.apname), a)
  }

  method GetAddressFromDa(d: Directory, apn: string, useNeighbour: bool, isMgmt: bool) returns (a: Address)
    ensures a == AddressFromDa(d, apn, useNeighbour, isMgmt)
  {
    a := if isMgmt then ParseAddress(apn) else d.resolve(apn);
    if !isMgmt && a == UNSPECIFIED {
      return;
    }
    if useNeighbour {
      ghost var first := a;
      var names := d.neighbours(a.apname);
      var i := 0;
      while i < |names|
        invariant i <= |names| && a == first
        invariant FirstOfDif(names, first) == FirstOfDif(names[i..], first)
      {
        var tmp := ParseAddress(names[i]);
        if a.difName == tmp.difName {
          a := tmp;
          break;
        }
        assert names[i..][1..] == names[i + 1..];
        i := i + 1;
      }
    }
  }

  /** setOriginalAddresses: stops at the first address that is not known. */
  function WithOriginals(d: Directory, f: FlowValue): FlowValue {
    var src := AddressFromDa(d, f.srcApni.apn, false, false);
    var dst := AddressFromDa(d, f.dstApni.apn, false, false);
    if Unspecified(src) then f
    else if Unspecified(dst) then f.(srcAddr := src)
    else f.(srcAddr := src, dstAddr := dst)
  }

  /** setNeighborAddresses. */
  function WithNeighbours(d: Directory, f: FlowValue): FlowValue {
    var mgmt := IsLocalManagement(f);
    var src := if mgmt then f.srcNeighbor else AddressFromDa(d, f.srcApni.apn, true, false);
    var dst := AddressFromDa(d, f.dstApni.apn, true, mgmt);
    if !mgmt && Unspecified(src) then f
    else if Unspecified(dst) then f.(srcNeighbor := src)
    else f.(srcNeighbor := src, dstNeighbor := dst)
  }

  lemma NeighboursOnly(d: Directory, f: FlowValue)
    ensures var g := WithNeighbours(d, f);
      g == f.(srcNeighbor := g.srcNeighbor, dstNeighbor := g.dstNeighbor)
  {
    hide AddressFromDa;
  }

  method SetOriginalAddresses(d: Directory, f: FlowValue) returns (g: FlowValue, ok: bool)
    ensures g == WithOriginals(d, f)
    ensures ok <==> !Unspecified(d.resolve(f.srcApni.apn)) && !Unspecified(d.resolve(f.dstApni.apn))
    ensures ok ==> g.srcAddr == d.resolve(f.srcApni.apn) && g.dstAddr == d.resolve(f.dstApni.apn)
    ensures !ok ==> g.dstAddr == f.dstAddr
  {
    g := f;
    var addr := GetAddressFromDa(d, g.srcApni.apn, false, false);
    if Unspecified(addr) {
      return g, false;
    }
    g := g.(srcAddr := addr);
    addr := GetAddressFromDa(d, g.dstApni.apn, false, false);
    if Unspecified(addr) {
      return g, false;
    }
    g := g.(dstAddr := addr);
    ok := true;
  }

  /** A local management flow keeps its source neighbour, and its destination neighbour is looked
      for from its own destination. */
  method SetNeighborAddresses(d: Directory, f: FlowValue) returns (g: FlowValue, ok: bool)
    ensures g == WithNeighbours(d, f)
    ensures ok ==> g.dstNeighbor == AddressFromDa(d, f.dstApni.apn, true, IsLocalManagement(f))
    ensures ok && !IsLocalManagement(f) ==> g.srcNeighbor == AddressFromDa(d, f.srcApni.apn, true, false)
    ensures IsLocalManagement(f) ==> g.srcNeighbor == f.srcNeighbor
    ensures !ok ==> g.dstNeighbor == f.dstNeighbor
  {
    hide AddressFromDa;
    g := f;
    var mgmt := IsLocalManagement(g);
    if !mgmt {
      var src := GetAddressFromDa(d, g.srcApni.apn, true, mgmt);
      if Unspecified(src) {
        return g, false;
      }
      g := g.(srcNeighbor := src);
    }
    var dst := GetAddressFromDa(d, g.dstApni.apn, true, mgmt);
    if Unspecified(dst) {
      return g, false;
    }
    g := g.(dstNeighbor := dst);
    ok := true;
  }
}
