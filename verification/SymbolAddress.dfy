/** Symbol lookup and address resolution, in 64-bit unsigned arithmetic. */
module SymbolAddress {
  import opened CTypes
  import opened CfsConfig
  import opened CString

  // The address the mock gives a symbol: 0x1000 bytes above the base for each character of its name.
  function SymbolBase(base: uint64, length: nat): uint64 {
    (base + (length * 0x1000) % TWO_64) % TWO_64
  }

  // Where a destination points, given the base address symbols are counted from.
  function AddressFrom(base: uint64, name: string, offset: uint64): uint64 {
    if name != "" then (SymbolBase(base, |name|) + offset) % TWO_64 else offset
  }

  // Wrapping a summand first makes no difference to a sum that wraps.
  lemma WrapFirst(x: nat, d: nat)
    ensures (x % TWO_64 + d) % TWO_64 == (x + d) % TWO_64
  {
    var k, y := x / TWO_64, x % TWO_64 + d;
    assert x + d == TWO_64 * (k + y / TWO_64) + y % TWO_64;
    ModUnique(x + d, TWO_64, k + y / TWO_64, y % TWO_64);
  }

  // A destination moves with its offset, whatever its name: both are added modulo 2^64.
  lemma OffsetAdds(base: uint64, name: string, offset: uint64, d: uint64)
    ensures AddressFrom(base, name, (offset + d) % TWO_64) == (AddressFrom(base, name, offset) + d) % TWO_64
  {
    hide SymbolBase;
    if name != "" {
      var b := SymbolBase(base, |name|);
      WrapFirst(offset + d, b);
      WrapFirst(b + offset, d);
    }
  }

  const LOOKUP_BASE: uint64 := 0x20000000

  // Where a destination without an offset lies: at zero without a name, and otherwise 4096 bytes
  // further from 0x20000000 for each character of it.
  lemma NamedAddress(name: string)
    ensures AddressFrom(LOOKUP_BASE, name, 0) == if name == "" then 0 else (0x20000000 + 4096 * |name|) % 0x1_0000_0000_0000_0000
  {
    WrapFirst(|name| * 0x1000, LOOKUP_BASE);
    SmallMod(SymbolBase(LOOKUP_BASE, |name|), TWO_64);
  }

  lemma AppDataAddress()
    ensures AddressFrom(LOOKUP_BASE, "MM_AppData", 0x10) == 0x2000A010
  {
  }

  // OS_SymbolLookup; the address is written through a pointer, here a one-element array.
  method SymbolLookup(address: array?<uint64>, name: array?<char>) returns (status: int)
    requires name != null ==> Terminated(name[..])
    requires address != null ==> address.Length == 1
    modifies if address == null then {} else {address}
    ensures address == null || name == null ==> status == OS_INVALID_POINTER && (address != null ==> address[0] == old(address[0]))
    ensures address != null && name != null ==> status == CFE_SUCCESS && address[0] == SymbolBase(LOOKUP_BASE, |old(CStr(name[..]))|)
  {
    if address != null && name != null {
      var len := StrLen(name);
      address[0] := SymbolBase(LOOKUP_BASE, len);
      return CFE_SUCCESS;
    }
    return OS_INVALID_POINTER;
  }

  // MM_ResolveSymAddr; a null name stands for a null SymAddr pointer.
  method ResolveSymAddr(symName: array?<char>, offset: uint64, resolved: array?<uint64>) returns (status: int)
    requires symName != null ==> Terminated(symName[..])
    requires resolved != null ==> resolved.Length == 1
    modifies if resolved == null then {} else {resolved}
    ensures symName == null || resolved == null ==> status == OS_INVALID_POINTER && (resolved != null ==> resolved[0] == old(resolved[0]))
    ensures symName != null && resolved != null ==> status == CFE_SUCCESS && resolved[0] == AddressFrom(LOOKUP_BASE, old(CStr(symName[..])), offset)
  {
    if symName == null || resolved == null {
      return OS_INVALID_POINTER;
    }
    var len := StrLen(symName);
    if len > 0 {
      var symbolAddr := new uint64[1](_ => 0);
      status := SymbolLookup(symbolAddr, symName);
      if status != CFE_SUCCESS {
        return;
      }
      resolved[0] := (symbolAddr[0] + offset) % TWO_64;
    } else {
      resolved[0] := offset;
    }
    return CFE_SUCCESS;
  }

  lemma SumCancels(a: uint64, b: uint64, d: uint64)
    ensures (a + d) % TWO_64 == (b + d) % TWO_64 <==> a == b
  {
  }

  // The lookup counts from a fixed 0x20000000, the simulation from the platform's RAM base: for a
  // named destination they agree exactly on a platform whose RAM starts there.
  lemma LookupAgreesExactly(ramBase: uint64, name: string, offset: uint64)
    ensures AddressFrom(ramBase, name, offset) == AddressFrom(LOOKUP_BASE, name, offset) <==> name == "" || ramBase == LOOKUP_BASE
  {
    var length := (|name| * 0x1000) % TWO_64;
    SumCancels(ramBase, LOOKUP_BASE, length);
    SumCancels((ramBase + length) % TWO_64, (LOOKUP_BASE + length) % TWO_64, offset);
  }
}
