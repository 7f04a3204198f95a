/** Rounding up to a power-of-two boundary (MM_ALIGN_TO_BOUNDARY) and the alignment check. */
module Alignment {
  import opened CTypes

  const MM_MEM8: uint8 := 8
  const MM_MEM16: uint8 := 16
  const MM_MEM32: uint8 := 32

  // C's int is 32 bits wide; an operand of a narrower unsigned type is promoted to it. A boundary of
  // width 31 stands for a non-negative int, such as a literal.
  const INT_WIDTH := 32

  function Max(a: nat, b: nat): nat {
    if a < b then b else a
  }

  // The width in which the macro's sum and mask are computed.
  function OperationWidth(addrWidth: nat, boundaryWidth: nat): (w: nat)
    ensures w >= INT_WIDTH && w >= addrWidth && w >= boundaryWidth
  {
    Max(INT_WIDTH, Max(addrWidth, boundaryWidth))
  }

  // The width in which ~((boundary) - 1) has its ones: a boundary promoted to int gives a negative
  // number, which is sign-extended to the operation's width; an unsigned int or wider one gives its
  // own width, and zeros above it.
  function MaskWidth(addrWidth: nat, boundaryWidth: nat): (w: nat)
    ensures w <= OperationWidth(addrWidth, boundaryWidth) && w >= boundaryWidth && w >= INT_WIDTH
  {
    if boundaryWidth < INT_WIDTH then OperationWidth(addrWidth, boundaryWidth) else boundaryWidth
  }

  // Addresses have an unsigned type. If it is narrower than int it is 8 or 16 bits wide, so that a sum
  // with an int does not leave the int range.
  predicate AddressWidth(w: nat) {
    w <= 16 || w >= INT_WIDTH
  }

  // ((addr) + (boundary) - 1) & ~((boundary) - 1) on operands of the given widths.
  function AlignToBoundary(addr: nat, boundary: nat, addrWidth: nat, boundaryWidth: nat): nat
    requires AddressWidth(addrWidth) && addr < Pow2(addrWidth)
    requires 0 < boundary < Pow2(boundaryWidth)
  {
    var mask := MaskWidth(addrWidth, boundaryWidth);
    Pow2Grows(boundaryWidth, mask);
    And((addr + boundary - 1) % Pow2(OperationWidth(addrWidth, boundaryWidth)), Complement(boundary - 1, mask))
  }

  // r is the least multiple of boundary that is not below addr.
  ghost predicate IsLeastMultiple(r: int, addr: nat, boundary: nat)
    requires boundary > 0
  {
    r % boundary == 0 && addr <= r < addr + boundary
  }

  lemma LeastMultipleIsLeast(r: nat, addr: nat, boundary: nat, other: nat)
    requires boundary > 0 && IsLeastMultiple(r, addr, boundary)
    requires other % boundary == 0 && addr <= other
    ensures r <= other
  {
    var p, q := other / boundary, r / boundary;
    assert boundary * (q - p) == r - other < boundary;
    ProductOrder(boundary, 1, q - p);
    ProductOrder(boundary, q - p, 0);
  }

  lemma RoundedDown(x: nat, m: nat)
    requires m > 0
    ensures (x - x % m) % m == 0 && 0 <= x - x % m <= x < x - x % m + m
  {
    ModUnique(x - x % m, m, x / m, 0);
  }

  lemma DropsWhole(x: nat, m: nat)
    requires 0 < m <= x
    ensures x % m <= x - m
  {
    assert x == m * (x / m) + x % m;
    ProductOrder(m, 1, x / m);
  }

  lemma {:induction false} Pow2Strict(k: nat, w: nat)
    requires k < w
    ensures 2 * Pow2(k) <= Pow2(w)
    decreases w
  {
    Pow2Grows(k, w - 1);
  }

  lemma {:induction false} Pow2Splits(k: nat, w: nat)
    requires k <= w
    ensures Pow2(w) == Pow2(k) * Pow2(w - k)
    decreases w
  {
    if k == w {
    } else {
      Pow2Splits(k, w - 1);
      assert Pow2(w) == 2 * (Pow2(k) * Pow2(w - 1 - k)) == Pow2(k) * (2 * Pow2(w - 1 - k));
    }
  }

  lemma ProductPositive(m: nat, n: nat)
    requires m > 0 && n > 0
    ensures m * n > 0
  {
  }

  lemma Regroup(m: nat, n: nat, q: nat, s: nat)
    ensures (m * n) * q + m * s == m * (n * q + s)
  {
    assert (m * n) * q == m * (n * q);
  }

  lemma Divide(x: nat, d: nat)
    requires d > 0
    ensures x == d * (x / d) + x % d && x % d < d && 0 <= x / d
  {
  }

  lemma NestedMod(x: nat, m: nat, n: nat)
    requires m > 0 && n > 0
    ensures m * n > 0 && (x % (m * n)) % m == x % m
  {
    ProductPositive(m, n);
    Divide(x, m * n);
    var q, r := x / (m * n), x % (m * n);
    Divide(r, m);
    Regroup(m, n, q, r / m);
    ModUnique(x, m, n * q + r / m, r % m);
  }

  // Powers of two nest, so the remainder by the larger decides the remainder by the smaller.
  lemma ModOfMod(x: nat, k: nat, w: nat)
    requires k <= w
    ensures (x % Pow2(w)) % Pow2(k) == x % Pow2(k)
  {
    Pow2Splits(k, w);
    hide Pow2;
    NestedMod(x, Pow2(k), Pow2(w - k));
  }

  // The value of the macro, in plain arithmetic.
  lemma AlignValue(addr: nat, k: nat, addrWidth: nat, boundaryWidth: nat)
    requires AddressWidth(addrWidth) && addr < Pow2(addrWidth) && k < boundaryWidth
    ensures Pow2(k) < Pow2(boundaryWidth)
    ensures var sum := addr + Pow2(k) - 1;
      AlignToBoundary(addr, Pow2(k), addrWidth, boundaryWidth)
        == sum % Pow2(MaskWidth(addrWidth, boundaryWidth)) - sum % Pow2(k)
  {
    hide Pow2, And, OperationWidth, MaskWidth;
    Pow2Strict(k, boundaryWidth);
    var w, v := OperationWidth(addrWidth, boundaryWidth), MaskWidth(addrWidth, boundaryWidth);
    var sum := addr + Pow2(k) - 1;
    Pow2Grows(k, v);
    ModOfMod(sum, k, w);
    ModOfMod(sum, v, w);
    AndHighMask(sum % Pow2(w), k, v);
  }

  // Rounding a sum down to a multiple of m, after reducing it modulo cut, gives the least multiple
  // exactly when the reduction changed nothing.
  lemma RoundedUp(addr: nat, m: nat, cut: nat)
    requires 0 < m <= cut
    ensures var sum := addr + m - 1; IsLeastMultiple(sum % cut - sum % m, addr, m) <==> sum < cut
  {
    var sum := addr + m - 1;
    if sum < cut {
      SmallMod(sum, cut);
      RoundedDown(sum, m);
    } else {
      DropsWhole(sum, cut);
    }
  }

  // For every mix of operand types and every power of two, the macro yields the least multiple not
  // below the address exactly when the sum fits in the width of the mask.
  lemma AlignExact(addr: nat, k: nat, addrWidth: nat, boundaryWidth: nat)
    requires AddressWidth(addrWidth) && addr < Pow2(addrWidth) && k < boundaryWidth
    ensures Pow2(k) < Pow2(boundaryWidth)
    ensures IsLeastMultiple(AlignToBoundary(addr, Pow2(k), addrWidth, boundaryWidth), addr, Pow2(k))
       <==> addr + Pow2(k) - 1 < Pow2(MaskWidth(addrWidth, boundaryWidth))
  {
    hide Pow2, AlignToBoundary, MaskWidth, IsLeastMultiple;
    var v := MaskWidth(addrWidth, boundaryWidth);
    AlignValue(addr, k, addrWidth, boundaryWidth);
    Pow2Grows(k, v);
    RoundedUp(addr, Pow2(k), Pow2(v));
  }

  lemma OnlyMultiple(r: nat, b: nat)
    requires b > 0
    ensures IsLeastMultiple(r, 1, b) <==> r == b
  {
    if IsLeastMultiple(r, 1, b) {
      Divide(r, b);
      ProductOrder(b, r / b, 0);
      ProductOrder(b, 2, r / b);
    }
  }

  lemma ExponentBelow(k: nat, w: nat)
    requires Pow2(k) < Pow2(w)
    ensures k < w
  {
    if w <= k {
      Pow2Grows(w, k);
    }
  }

  // The only boundaries the macro is right for are the powers of two: any other one fails at address 1
  // already, and a power of two is right wherever its sum fits.
  lemma BoundaryExact(boundary: nat, addrWidth: nat, boundaryWidth: nat)
    requires AddressWidth(addrWidth) && 1 < Pow2(addrWidth) && 0 < boundary < Pow2(boundaryWidth)
    ensures IsLeastMultiple(AlignToBoundary(1, boundary, addrWidth, boundaryWidth), 1, boundary) <==> exists k: nat :: boundary == Pow2(k)
  {
    var w, v := OperationWidth(addrWidth, boundaryWidth), MaskWidth(addrWidth, boundaryWidth);
    Pow2Grows(boundaryWidth, v);
    Pow2Grows(v, w);
    hide Pow2, And, OperationWidth, MaskWidth;
    SmallMod(boundary, Pow2(w));
    assert AlignToBoundary(1, boundary, addrWidth, boundaryWidth) == And(boundary, Complement(boundary - 1, v));
    OnlyMultiple(And(boundary, Complement(boundary - 1, v)), boundary);
    LowestBit(boundary, v);
    if k: nat :| boundary == Pow2(k) {
      ExponentBelow(k, boundaryWidth);
      AlignExact(1, k, addrWidth, boundaryWidth);
    }
  }

  lemma Pow2Values()
    ensures Pow2(2) == 4 && Pow2(4) == 16 && Pow2(8) == 256 && Pow2(16) == 0x1_0000 && Pow2(32) == TWO_32 && Pow2(64) == TWO_64
  {
    assert Pow2(8) == 0x100;
    assert Pow2(16) == 0x1_0000;
    assert Pow2(24) == 0x100_0000;
    assert Pow2(32) == 0x1_0000_0000;
    assert Pow2(40) == 0x100_0000_0000;
    assert Pow2(48) == 0x1_0000_0000_0000;
    assert Pow2(56) == 0x100_0000_0000_0000;
  }

  lemma BoundaryThreeFails()
    ensures Pow2(64) == TWO_64 && AlignToBoundary(1, 3, 64, 64) == 1 && !IsLeastMultiple(1, 1, 3)
  {
    Pow2Values();
    hide Pow2;
    var mask: nat := TWO_64 - 3;
    assert mask / 2 == 0x7FFF_FFFF_FFFF_FFFE && mask % 2 == 1;
    assert And(1, mask / 2) == 2 * And(0, mask / 4) == 0;
    assert And(3, mask) == 2 * And(1, mask / 2) + 1;
    SmallMod(3, Pow2(64));
  }

  // With a boundary as wide as the operation, a sum that overflows gives zero.
  lemma AlignOverflow(addr: nat, k: nat, w: nat)
    requires w >= INT_WIDTH && addr < Pow2(w) && k < w
    ensures Pow2(k) < Pow2(w)
    ensures addr + Pow2(k) - 1 >= Pow2(w) ==> AlignToBoundary(addr, Pow2(k), w, w) == 0
  {
    hide Pow2, AlignToBoundary;
    AlignValue(addr, k, w, w);
    ModOfMod(addr + Pow2(k) - 1, k, w);
    Pow2Strict(k, w);
    var sum := addr + Pow2(k) - 1;
    if sum >= Pow2(w) {
      ModUnique(sum, Pow2(w), 1, sum - Pow2(w));
      SmallMod(sum - Pow2(w), Pow2(w));
      SmallMod(sum - Pow2(w), Pow2(k));
    }
  }

  // Two operands narrower than int never overflow: the result is always the least multiple, if need be
  // outside the address's own type.
  lemma PromotedAlwaysRight(addr: nat, k: nat, addrWidth: nat, boundaryWidth: nat)
    requires addrWidth <= 16 && addr < Pow2(addrWidth) && k < boundaryWidth < INT_WIDTH
    ensures Pow2(k) < Pow2(boundaryWidth)
    ensures IsLeastMultiple(AlignToBoundary(addr, Pow2(k), addrWidth, boundaryWidth), addr, Pow2(k))
  {
    hide Pow2, AlignToBoundary, IsLeastMultiple;
    Pow2Values();
    Pow2Grows(addrWidth, 16);
    Pow2Grows(k, 30);
    Pow2Strict(30, 32);
    AlignExact(addr, k, addrWidth, boundaryWidth);
  }

  // A boundary that is promoted to int loses nothing, however wide the address is; what is left is
  // overflow of the address's own type.
  lemma PromotedBoundaryExact(addr: nat, k: nat, addrWidth: nat, boundaryWidth: nat)
    requires addrWidth >= INT_WIDTH && addr < Pow2(addrWidth) && k < boundaryWidth < INT_WIDTH
    ensures Pow2(k) < Pow2(boundaryWidth)
    ensures IsLeastMultiple(AlignToBoundary(addr, Pow2(k), addrWidth, boundaryWidth), addr, Pow2(k)) <==> addr + Pow2(k) - 1 < Pow2(addrWidth)
  {
    AlignExact(addr, k, addrWidth, boundaryWidth);
  }

  // An unsigned int or wider boundary that is narrower than the address has a zero-extended mask that
  // erases the high part: the result is right exactly when the sum fits in the boundary's type.
  lemma NarrowBoundaryExact(addr: nat, k: nat, narrow: nat, wide: nat)
    requires INT_WIDTH <= narrow <= wide && k < narrow && addr < Pow2(wide)
    ensures Pow2(k) < Pow2(narrow)
    ensures IsLeastMultiple(AlignToBoundary(addr, Pow2(k), wide, narrow), addr, Pow2(k)) <==> addr + Pow2(k) - 1 < Pow2(narrow)
  {
    AlignExact(addr, k, wide, narrow);
  }

  // Concrete uses: a 64-bit address with a 32-bit boundary loses its high half, with an 8- or 16-bit
  // boundary it does not, and two 8-bit operands give a result of nine bits.
  lemma MixedWidthExamples()
    ensures Pow2(64) == TWO_64 && Pow2(32) == TWO_32 && Pow2(8) == 256
    ensures AlignToBoundary(0x1_0000_0001, 4, 64, 32) == 4 && AlignToBoundary(0x1_0000_0001, 4, 64, 64) == 0x1_0000_0004
    ensures AlignToBoundary(0x1234, 4, 64, 8) == 0x1234 && AlignToBoundary(0x1_0000_0001, 4, 64, 16) == 0x1_0000_0004
    ensures AlignToBoundary(250, 16, 8, 8) == 256
  {
    Pow2Values();
    hide AlignToBoundary, Pow2, And, Complement;
    AlignValue(0x1_0000_0001, 2, 64, 32);
    AlignValue(0x1_0000_0001, 2, 64, 64);
    AlignValue(0x1234, 2, 64, 8);
    AlignValue(0x1_0000_0001, 2, 64, 16);
    AlignValue(250, 4, 8, 8);
  }

  lemma NextMultiple(a: int, m: nat, q: int, n: int)
    requires a == m * q < m * n
    ensures a + m <= m * n
  {
    ProductOrder(m, n, q);
    ProductOrder(m, q + 1, n);
    assert m * (q + 1) == m * q + m;
  }

  // Between a multiple of 2^k below 2^w and 2^w there is room for the rest of its block.
  lemma MultipleHasRoom(addr: nat, k: nat, w: nat)
    requires k < w && addr < Pow2(w) && addr % Pow2(k) == 0
    ensures addr + Pow2(k) <= Pow2(w)
  {
    hide Pow2;
    Pow2Splits(k, w);
    NextMultiple(addr, Pow2(k), addr / Pow2(k), Pow2(w - k));
  }

  lemma RoundedShape(r: int, sum: nat, m: nat, cut: nat)
    requires m > 0 && cut > 0 && (sum % cut) % m == sum % m && r == sum % cut - sum % m
    ensures r % m == 0 && r < cut
  {
    RoundedDown(sum % cut, m);
  }

  // Whatever happens, the result is a multiple of the boundary that fits in the width of the mask.
  lemma ResultShape(addr: nat, k: nat, addrWidth: nat, boundaryWidth: nat)
    requires AddressWidth(addrWidth) && addr < Pow2(addrWidth) && k < boundaryWidth
    ensures Pow2(k) < Pow2(boundaryWidth)
    ensures var r := AlignToBoundary(addr, Pow2(k), addrWidth, boundaryWidth);
      r % Pow2(k) == 0 && r < Pow2(MaskWidth(addrWidth, boundaryWidth))
  {
    hide Pow2, AlignToBoundary, MaskWidth, OperationWidth;
    AlignValue(addr, k, addrWidth, boundaryWidth);
    var r, v := AlignToBoundary(addr, Pow2(k), addrWidth, boundaryWidth), MaskWidth(addrWidth, boundaryWidth);
    var sum := addr + Pow2(k) - 1;
    ModOfMod(sum, k, v);
    RoundedShape(r, sum, Pow2(k), Pow2(v));
  }

  // The macro leaves an address alone exactly when it is a multiple of the boundary and fits in the
  // width of the mask.
  lemma AlignFixes(addr: nat, k: nat, addrWidth: nat, boundaryWidth: nat)
    requires AddressWidth(addrWidth) && addr < Pow2(addrWidth) && k < boundaryWidth
    ensures Pow2(k) < Pow2(boundaryWidth)
    ensures AlignToBoundary(addr, Pow2(k), addrWidth, boundaryWidth) == addr
       <==> addr % Pow2(k) == 0 && addr < Pow2(MaskWidth(addrWidth, boundaryWidth))
  {
    hide Pow2, AlignToBoundary, MaskWidth;
    var v := MaskWidth(addrWidth, boundaryWidth);
    AlignExact(addr, k, addrWidth, boundaryWidth);
    var r := AlignToBoundary(addr, Pow2(k), addrWidth, boundaryWidth);
    ResultShape(addr, k, addrWidth, boundaryWidth);
    if addr % Pow2(k) == 0 && addr < Pow2(v) {
      MultipleHasRoom(addr, k, v);
      LeastMultipleIsLeast(r, addr, Pow2(k), addr);
    }
  }

  // Where the sums fit, rounding up is monotone, and a result that fits in the address's type is left
  // alone by a second rounding.
  lemma AlignIdempotentAndMonotone(a: nat, b: nat, k: nat, addrWidth: nat, boundaryWidth: nat)
    requires AddressWidth(addrWidth) && a <= b < Pow2(addrWidth) && k < boundaryWidth
    requires b + Pow2(k) - 1 < Pow2(MaskWidth(addrWidth, boundaryWidth))
    ensures Pow2(k) < Pow2(boundaryWidth)
    ensures AlignToBoundary(a, Pow2(k), addrWidth, boundaryWidth)
      <= AlignToBoundary(b, Pow2(k), addrWidth, boundaryWidth)
    ensures var r := AlignToBoundary(b, Pow2(k), addrWidth, boundaryWidth);
      r < Pow2(addrWidth) ==> AlignToBoundary(r, Pow2(k), addrWidth, boundaryWidth) == r
  {
    AlignExact(a, k, addrWidth, boundaryWidth);
    AlignExact(b, k, addrWidth, boundaryWidth);
    hide Pow2, AlignToBoundary;
    var ra, rb := AlignToBoundary(a, Pow2(k), addrWidth, boundaryWidth), AlignToBoundary(b, Pow2(k), addrWidth, boundaryWidth);
    LeastMultipleIsLeast(ra, a, Pow2(k), rb);
    if rb < Pow2(addrWidth) {
      ResultShape(b, k, addrWidth, boundaryWidth);
      AlignFixes(rb, k, addrWidth, boundaryWidth);
    }
  }

  ghost predicate AlignmentAccepts(addr: uint64, dataSize: uint8) {
    exists bytes :: bytes in {1, 2, 4} && dataSize == 8 * bytes && addr % bytes == 0
  }

  // MM_IsValidAlignment
  method IsValidAlignment(addr: uint64, dataSize: uint8) returns (valid: bool)
    ensures valid <==> AlignmentAccepts(addr, dataSize)
  {
    var alignment := 1;
    if dataSize == MM_MEM8 {
      alignment := 1;
    } else if dataSize == MM_MEM16 {
      alignment := 2;
    } else if dataSize == MM_MEM32 {
      alignment := 4;
    } else {
      return false;
    }
    return addr % alignment == 0;
  }

  lemma AcceptsMultiples(addr: uint64, k: nat)
    requires k <= 2
    ensures 0 < 8 * Pow2(k) < 256
    ensures AlignmentAccepts(addr, 8 * Pow2(k)) <==> addr % Pow2(k) == 0
  {
    if k == 0 {
      assert Pow2(0) == 1;
    } else if k == 1 {
      assert Pow2(1) == 2;
    } else {
      assert Pow2(2) == 4;
    }
    var bytes := Pow2(k);
    assert bytes in {1, 2, 4};
    hide Pow2;
  }

  // The sizes by name, and every other size refused at every address.
  lemma AcceptedSizes(addr: uint64, dataSize: uint8)
    ensures AlignmentAccepts(addr, dataSize) <==>
      dataSize == 8 || (dataSize == 16 && addr % 2 == 0) || (dataSize == 32 && addr % 4 == 0)
  {
    assert 1 in {1, 2, 4} && 2 in {1, 2, 4} && 4 in {1, 2, 4};
    assert addr % 1 == 0;
  }

  // With any boundary type that is promoted to int or is as wide as the address, the check accepts an
  // address exactly when rounding it up to its access size changes nothing.
  lemma AlignmentAgreesWithMacro(addr: uint64, k: nat, boundaryWidth: nat)
    requires k <= 2 && k < boundaryWidth && (boundaryWidth < INT_WIDTH || boundaryWidth >= 64)
    ensures Pow2(64) == TWO_64 && 0 < 8 * Pow2(k) < 256 && Pow2(k) < Pow2(boundaryWidth)
    ensures AlignmentAccepts(addr, 8 * Pow2(k)) <==> AlignToBoundary(addr, Pow2(k), 64, boundaryWidth) == addr
  {
    hide AlignToBoundary, Pow2, AlignmentAccepts;
    Pow2Values();
    AcceptsMultiples(addr, k);
    AlignFixes(addr, k, 64, boundaryWidth);
    Pow2Grows(64, MaskWidth(64, boundaryWidth));
  }
}
