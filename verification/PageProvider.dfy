/** The page provider behind liballoc, as libc/private_include/liballoc.h promises it. */
module PageProvider {
  import opened Machine

  /** The pages handed out: region base -> number of pages. */
  type Regions = map<int, int>

  predicate Disjoint(b: int, n: int, c: int, m: int) {
    b + PAGE * n <= c || c + PAGE * m <= b
  }

  /** `pages` pages of the 32-bit address space, none of them at 0. */
  predicate Region(base: int, pages: int) {
    0 < pages && 0 < base && base % PAGE == 0 && base + PAGE * pages <= WORD_LIMIT
  }

  /** A region with no page in `held`. */
  predicate Fresh(held: Regions, base: int, pages: int) {
    Region(base, pages) && forall b :: b in held ==> Disjoint(b, held[b], base, pages)
  }

  /** The regions after a grant of `pages` pages at `base`, or of none. */
  function With(held: Regions, base: int, pages: int): Regions {
    if pages == 0 then held else held[base := pages]
  }

  /** The regions after that at `b` went back, or not. */
  function Without(held: Regions, b: int, back: bool): Regions {
    if back then held - {b} else held
  }

  lemma HasKey(held: Regions)
    ensures held == map[] || exists b :: b in held
  {
    if forall b :: b !in held {
      assert held == map[];
    }
  }

  ghost function PageSum(held: Regions): (n: int)
    decreases |held|
  {
    if held == map[] then 0
    else
      HasKey(held);
      var b :| b in held;
      held[b] + PageSum(held - {b})
  }

  lemma {:induction false} PageSumRemove(held: Regions, b: int)
    requires b in held
    ensures PageSum(held) == held[b] + PageSum(held - {b})
    decreases |held|
  {
    var c :| c in held && PageSum(held) == held[c] + PageSum(held - {c});
    if c == b {
    } else {
      PageSumRemove(held - {c}, b);
      PageSumRemove(held - {b}, c);
      assert held - {c} - {b} == held - {b} - {c};
    }
  }

  class Provider {
    var held: Regions
    ghost var obtained: nat
    ghost var returned: nat

    ghost predicate Valid()
      reads this
    {
      && (forall b :: b in held ==> Region(b, held[b]))
      && (forall b, c :: b in held && c in held && b != c ==> Disjoint(b, held[b], c, held[c]))
      && obtained - returned == PageSum(held)
    }

    constructor ()
      ensures Valid() && held == map[] && obtained == 0 && returned == 0
    {
      held, obtained, returned := map[], 0, 0;
    }

    /** liballoc_alloc: refuses (0), or hands out pages nobody holds. Which of the two is not ours to know. */
    method Alloc(pages: int) returns (base: int)
      requires Valid() && 0 < pages
      modifies this
      ensures Valid()
      ensures base == 0 ==> held == old(held) && obtained == old(obtained) && returned == old(returned)
      ensures base != 0 ==>
        && Fresh(old(held), base, pages) && base !in old(held)
        && held == old(held)[base := pages]
        && obtained == old(obtained) + pages && returned == old(returned)
    {
      var b: int :| 0 <= b < WORD_LIMIT && (b == 0 || Fresh(held, b, pages));
      base := b;
      if base != 0 {
        assert Fresh(held, base, pages);
        assert base !in held;
        ghost var before := held;
        held := held[base := pages];
        obtained := obtained + pages;
        assert held - {base} == before;
        PageSumRemove(held, base);
      }
    }

    /** liballoc_free: takes back exactly one earlier grant. */
    method Release(base: int, pages: int)
      requires Valid() && base in held && held[base] == pages
      modifies this
      ensures Valid()
      ensures held == old(held) - {base}
      ensures obtained == old(obtained) && returned == old(returned) + pages
    {
      PageSumRemove(held, base);
      held := held - {base};
      returned := returned + pages;
    }
  }
}
