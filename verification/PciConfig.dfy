/** PCI configuration space as kernel/src/pci.c reads it. */
module PciConfig {
  import opened Arithmetic
  import opened Machine

  /** Configuration space: the dword the data port shows for each value of the address port. */
  type Space = int -> int

  ghost predicate IsSpace(space: Space) {
    forall a {:trigger space(a)} :: 0 <= space(a) < WORD_LIMIT
  }

  /** The address port value; the fields are disjoint, so joining them is adding them. */
  function Address(bus: int, device: int, fn: int, offset: int): int {
    bus * 0x1_0000 + device * 0x800 + fn * 0x100 + (offset - offset % 4) + 0x8000_0000
  }

  /** pci_config_read_word */
  function ReadWord(space: Space, bus: int, device: int, fn: int, offset: int): int {
    var dword := space(Address(bus, device, fn, offset));
    (if offset % 4 >= 2 then dword / 0x1_0000 else dword) % 0x1_0000
  }

  function Vendor(space: Space, b: int, d: int, f: int): int { ReadWord(space, b, d, f, 0x0) }
  function Device(space: Space, b: int, d: int, f: int): int { ReadWord(space, b, d, f, 0x3) }
  function Class(space: Space, b: int, d: int, f: int): int { ReadWord(space, b, d, f, 0xB) / 256 }
  function Subclass(space: Space, b: int, d: int, f: int): int { ReadWord(space, b, d, f, 0xB) % 256 }
  function ProgIf(space: Space, b: int, d: int, f: int): int { ReadWord(space, b, d, f, 0x8) / 256 }
  function Revision(space: Space, b: int, d: int, f: int): int { ReadWord(space, b, d, f, 0x8) % 256 }
  function HeaderType(space: Space, b: int, d: int, f: int): int { ReadWord(space, b, d, f, 0xF) % 256 }
  function SecondaryBus(space: Space, b: int, d: int, f: int): int { ReadWord(space, b, d, f, 0x18) / 256 }

  predicate Coordinates(bus: int, device: int, fn: int, offset: int) {
    0 <= bus < 256 && 0 <= device < 32 && 0 <= fn < 8 && 0 <= offset < 256
  }

  /** The fields of an address as the host bridge decodes them: enable bit, bus, device, function and register. */
  predicate Decodes(a: int, b: int, d: int, f: int, r: int) {
    && a / 0x8000_0000 == 1 && a / 0x100_0000 % 128 == 0
    && a / 0x1_0000 % 256 == b && a / 0x800 % 32 == d && a / 0x100 % 8 == f && a % 0x100 == r
  }

  /** The address port gets the one value whose fields are those of the register. */
  lemma AddressDecodes(b: int, d: int, f: int, o: int, a: int)
    requires Coordinates(b, d, f, o)
    ensures Decodes(a, b, d, f, o / 4 * 4) <==> a == Address(b, d, f, o)
  {
    var r := o / 4 * 4;
    assert o - o % 4 == r && 0 <= r < 256;
    if a == Address(b, d, f, o) {
      DivUnique(a, 0x100, 0x80_0000 + 0x100 * b + 8 * d + f, r);
      DivUnique(a, 0x800, 0x10_0000 + 0x20 * b + d, 0x100 * f + r);
      DivUnique(a, 0x1_0000, 0x8000 + b, 0x800 * d + 0x100 * f + r);
      DivUnique(a, 0x100_0000, 0x80, 0x1_0000 * b + 0x800 * d + 0x100 * f + r);
      DivUnique(a, 0x8000_0000, 1, 0x1_0000 * b + 0x800 * d + 0x100 * f + r);
      DivUnique(0x80_0000 + 0x100 * b + 8 * d + f, 8, 0x10_0000 + 0x20 * b + d, f);
      DivUnique(0x10_0000 + 0x20 * b + d, 32, 0x8000 + b, d);
      DivUnique(0x8000 + b, 256, 0x80, b);
    }
    if Decodes(a, b, d, f, r) {
      FieldsAddUp(a);
    }
  }

  /** The fields are all of an address. */
  lemma FieldsAddUp(a: int)
    ensures a == 0x8000_0000 * (a / 0x8000_0000) + 0x100_0000 * (a / 0x100_0000 % 128) + 0x1_0000 * (a / 0x1_0000 % 256)
                 + 0x800 * (a / 0x800 % 32) + 0x100 * (a / 0x100 % 8) + a % 0x100
  {
    var q8 := a / 0x100;
    var q11 := q8 / 8;
    var q16 := q11 / 32;
    var q24 := q16 / 256;
    assert a / 0x800 == q11;
    assert a / 0x1_0000 == q16;
    assert a / 0x100_0000 == q24;
    assert a / 0x8000_0000 == q24 / 128;
  }

  /** Different registers have different addresses. */
  lemma AddressesDiffer(b: int, d: int, f: int, o: int, b': int, d': int, f': int, o': int)
    requires Coordinates(b, d, f, o) && Coordinates(b', d', f', o')
    ensures Address(b, d, f, o) == Address(b', d', f', o') <==> b == b' && d == d' && f == f' && o / 4 == o' / 4
    ensures 0x8000_0000 <= Address(b, d, f, o) < WORD_LIMIT
  {
    var k, k' := o / 4, o' / 4;
    assert o - o % 4 == 4 * k && o' - o' % 4 == 4 * k' && 0 <= k < 64 && 0 <= k' < 64;
    MixedRadix(b, d, f, k, b', d', f', k');
  }

  /** The fields do not run into one another. */
  lemma MixedRadix(b: int, d: int, f: int, k: int, b': int, d': int, f': int, k': int)
    requires 0 <= d < 32 && 0 <= f < 8 && 0 <= k < 64 && 0 <= d' < 32 && 0 <= f' < 8 && 0 <= k' < 64
    ensures b * 0x4000 + d * 0x200 + f * 0x40 + k == b' * 0x4000 + d' * 0x200 + f' * 0x40 + k'
      ==> b == b' && d == d' && f == f' && k == k'
  {
  }

  /** Byte `i` of the register at offset `o`, the least significant first. */
  function RegisterByte(space: Space, b: int, d: int, f: int, o: int, i: int): int {
    var shift := if i == 0 then 1 else if i == 1 then 0x100 else if i == 2 then 0x1_0000 else 0x100_0000;
    space(Address(b, d, f, o)) / shift % 256
  }

  lemma DwordBytes(dword: int)
    requires 0 <= dword < WORD_LIMIT
    ensures var h, l := dword / 0x1_0000, dword % 0x1_0000;
      && h % 0x1_0000 == h && h / 256 == dword / 0x100_0000 % 256 && h % 256 == dword / 0x1_0000 % 256
      && l / 256 == dword / 0x100 % 256
  {
    var h, l := dword / 0x1_0000, dword % 0x1_0000;
    DivUnique(dword, 0x100_0000, h / 256, 0x1_0000 * (h % 256) + l);
    DivUnique(dword, 0x100, 0x100 * h + l / 256, l % 256);
    DivUnique(0x100 * h + l / 256, 0x100, h, l / 256);
  }

  /** The odd offsets of the accessors still pick the bytes that the PCI header layout gives these fields. */
  lemma FieldsAreHeaderBytes(space: Space, b: int, d: int, f: int)
    requires IsSpace(space)
    ensures Class(space, b, d, f) == RegisterByte(space, b, d, f, 0x8, 3)
    ensures Subclass(space, b, d, f) == RegisterByte(space, b, d, f, 0x8, 2)
    ensures ProgIf(space, b, d, f) == RegisterByte(space, b, d, f, 0x8, 1)
    ensures Revision(space, b, d, f) == RegisterByte(space, b, d, f, 0x8, 0)
    ensures HeaderType(space, b, d, f) == RegisterByte(space, b, d, f, 0xC, 2)
    ensures SecondaryBus(space, b, d, f) == RegisterByte(space, b, d, f, 0x18, 1)
    ensures Vendor(space, b, d, f) == space(Address(b, d, f, 0)) % 0x1_0000
    ensures Device(space, b, d, f) == space(Address(b, d, f, 0)) / 0x1_0000
  {
    assert Address(b, d, f, 0xB) == Address(b, d, f, 0x8) && Address(b, d, f, 0xF) == Address(b, d, f, 0xC);
    assert Address(b, d, f, 0x3) == Address(b, d, f, 0);
    DwordBytes(space(Address(b, d, f, 0)));
    DwordBytes(space(Address(b, d, f, 0x8)));
    DwordBytes(space(Address(b, d, f, 0xC)));
    DwordBytes(space(Address(b, d, f, 0x18)));
  }
}
