/** Page-erase planning for one image segment: the page loop of `_program_device`
    (nrf5_multi_prog.py, lines 117-121). Addresses are non-negative, so Python 2's
    integer `/` is Dafny's floor division. */
module ErasePlan {

  /** A flash page size in bytes (the programmer uses 0x400 or 0x1000). */
  type PageSize = n: nat | 0 < n witness 0x400

  /** The page-start addresses lo * p, (lo + 1) * p, ..., (hi - 1) * p: one
      `erase_page(page * p)` for each `page in range(lo, hi)`. */
  function PagesFrom(lo: nat, hi: nat, p: PageSize): (r: seq<nat>)
    ensures |r| == if hi <= lo then 0 else hi - lo
    ensures forall i :: 0 <= i < |r| ==> r[i] == (lo + i) * p
    decreases hi
  {
    if hi <= lo then [] else PagesFrom(lo, hi - 1, p) + [(hi - 1) * p]
  }

  /** The erase plan of the segment [startAddr, endAddr): every page index from
      startAddr / p up to AND including endAddr / p. */
  function PageAddresses(startAddr: nat, endAddr: nat, p: PageSize): seq<nat>
  {
    PagesFrom(startAddr / p, endAddr / p + 1, p)
  }

  /** The pages that hold at least one byte of a non-empty segment [startAddr, endAddr):
      a reference to compare the plan against. */
  function DataPages(startAddr: nat, endAddr: nat, p: PageSize): seq<nat>
    requires startAddr < endAddr
  {
    PagesFrom(startAddr / p, (endAddr - 1) / p + 1, p)
  }

  // ---------------------------------------------------------------------------
  // Floor division facts, derived from a == p * (a / p) + a % p.

  lemma MulMono(a: nat, b: nat, p: PageSize)
    requires a < b
    ensures a * p + p <= b * p
  {
    var d: nat := b - a - 1;
    assert b * p == (a + 1 + d) * p == a * p + p + d * p;
  }

  /** k <= a / p exactly when the page k starts at or below a. */
  lemma DivBound(a: nat, k: nat, p: PageSize)
    ensures k <= a / p <==> k * p <= a
  {
    assert a == p * (a / p) + a % p;
    if k <= a / p {
      if k < a / p { MulMono(k, a / p, p); }
    } else {
      MulMono(a / p, k, p);
    }
  }

  lemma MulDiv(k: nat, p: PageSize)
    ensures (k * p) / p == k && (k * p) % p == 0
  {
    DivBound(k * p, k, p);
    DivBound(k * p, k + 1, p);
    assert k * p == p * ((k * p) / p) + (k * p) % p;
  }

  lemma DivExact(a: nat, p: PageSize)
    requires a % p == 0
    ensures (a / p) * p == a
  {
    assert a == p * (a / p) + a % p;
  }

  lemma DivMonotone(a: nat, b: nat, p: PageSize)
    requires a <= b
    ensures a / p <= b / p
  {
    DivBound(a, a / p, p);
    DivBound(b, a / p, p);
  }

  // ---------------------------------------------------------------------------
  // The shape of a page range.

  /** An address is planned exactly when it is page-aligned and its page index is in [lo, hi). */
  lemma PagesFromMember(lo: nat, hi: nat, p: PageSize, x: nat)
    ensures x in PagesFrom(lo, hi, p) <==> x % p == 0 && lo <= x / p < hi
  {
    var r := PagesFrom(lo, hi, p);
    if x in r {
      var i :| 0 <= i < |r| && r[i] == x;
      MulDiv(lo + i, p);
    }
    if x % p == 0 && lo <= x / p < hi {
      var k := x / p;
      DivExact(x, p);
      assert r[k - lo] == k * p;
    }
  }

  /** The plan is the list of page indices start/p .. end/p, ascending, each page once:
      end/p - start/p + 1 erases. */
  lemma PageAddressesShape(startAddr: nat, endAddr: nat, p: PageSize)
    requires startAddr <= endAddr
    ensures var r := PageAddresses(startAddr, endAddr, p);
      && |r| == endAddr / p - startAddr / p + 1
      && (forall i :: 0 <= i < |r| ==> r[i] == (startAddr / p + i) * p && r[i] % p == 0)
      && (forall i, j :: 0 <= i < j < |r| ==> r[i] + p <= r[j])
  {
    var r := PageAddresses(startAddr, endAddr, p);
    DivMonotone(startAddr, endAddr, p);
    forall i | 0 <= i < |r| ensures r[i] % p == 0 {
      MulDiv(startAddr / p + i, p);
    }
    forall i, j | 0 <= i < j < |r| ensures r[i] + p <= r[j] {
      MulMono(startAddr / p + i, startAddr / p + j, p);
    }
  }

  /** An aligned page [x, x + p) against an address a, compared by page index. */
  lemma AlignedBounds(x: nat, a: nat, p: PageSize)
    requires x % p == 0
    ensures a / p <= x / p <==> a < x + p
    ensures x / p <= a / p <==> x <= a
  {
    var k := x / p;
    DivExact(x, p);
    assert (k + 1) * p == k * p + p;
    DivBound(a, k + 1, p);
    DivBound(a, k, p);
  }

  /** Exactly the aligned pages [x, x + p) that meet the CLOSED range [start, end] are erased. */
  lemma PageAddressesMember(startAddr: nat, endAddr: nat, p: PageSize, x: nat)
    ensures x in PageAddresses(startAddr, endAddr, p)
        <==> x % p == 0 && startAddr < x + p && x <= endAddr
  {
    PagesFromMember(startAddr / p, endAddr / p + 1, p, x);
    if x % p == 0 {
      AlignedBounds(x, startAddr, p);
      AlignedBounds(x, endAddr, p);
    }
  }

  /** The reference: exactly the aligned pages that meet the HALF-OPEN range [start, end). */
  lemma DataPagesMember(startAddr: nat, endAddr: nat, p: PageSize, x: nat)
    requires startAddr < endAddr
    ensures x in DataPages(startAddr, endAddr, p)
        <==> x % p == 0 && startAddr < x + p && x < endAddr
  {
    PagesFromMember(startAddr / p, (endAddr - 1) / p + 1, p, x);
    if x % p == 0 {
      AlignedBounds(x, startAddr, p);
      AlignedBounds(x, endAddr - 1, p);
    }
  }

  /** Every byte of the segment lies in exactly one erased page. */
  lemma PageAddressesCover(startAddr: nat, endAddr: nat, p: PageSize, a: nat)
    requires startAddr <= a < endAddr
    ensures var r := PageAddresses(startAddr, endAddr, p);
      && (exists i :: 0 <= i < |r| && r[i] <= a < r[i] + p)
      && (forall i, j :: 0 <= i < |r| && 0 <= j < |r| && r[i] <= a < r[i] + p && r[j] <= a < r[j] + p ==> i == j)
  {
    var r := PageAddresses(startAddr, endAddr, p);
    PageAddressesShape(startAddr, endAddr, p);
    var k := a / p;
    var x := k * p;
    DivBound(a, k, p);
    DivBound(a, k + 1, p);
    assert x <= a < x + p;
    MulDiv(k, p);
    PageAddressesMember(startAddr, endAddr, p, x);
    var i :| 0 <= i < |r| && r[i] == x;
  }

  /** The boundary quirk: the plan is the data pages, plus the page starting at endAddr
      when endAddr is page-aligned (a page that holds no byte of the segment). */
  lemma PageAddressesQuirk(startAddr: nat, endAddr: nat, p: PageSize)
    requires startAddr < endAddr
    ensures PageAddresses(startAddr, endAddr, p)
         == DataPages(startAddr, endAddr, p) + (if endAddr % p == 0 then [endAddr] else [])
  {
    var lo, e := startAddr / p, endAddr / p;
    DivMonotone(startAddr, endAddr, p);
    LastPage(endAddr, p);
    if endAddr % p == 0 {
      assert PagesFrom(lo, e + 1, p) == PagesFrom(lo, e, p) + [e * p];
    }
  }

  /** The page of the last byte of [0, endAddr): the page before endAddr / p when endAddr
      is aligned, and endAddr / p itself otherwise. */
  lemma LastPage(endAddr: nat, p: PageSize)
    requires 0 < endAddr
    ensures endAddr % p == 0 ==> (endAddr - 1) / p + 1 == endAddr / p && (endAddr / p) * p == endAddr
    ensures endAddr % p != 0 ==> (endAddr - 1) / p == endAddr / p
  {
    var e := endAddr / p;
    assert endAddr == p * e + endAddr % p;
    DivBound(endAddr - 1, e, p);
    DivBound(endAddr - 1, e + 1, p);
    if endAddr % p == 0 {
      DivBound(endAddr - 1, e - 1, p);
      DivExact(endAddr, p);
    }
  }

  /** A worked instance: a segment ending on a page boundary also erases the next page. */
  lemma AlignedEndExample()
    ensures PageAddresses(0x1000, 0x1400, 0x400) == [0x1000, 0x1400]
    ensures DataPages(0x1000, 0x1400, 0x400) == [0x1000]
  {
  }

  /** Plans are made per segment: two segments in the same page both erase it, so the
      second segment's erase also clears the first segment's bytes, already written. */
  lemma SharedPageErasedTwice()
    ensures 0x1000 in PageAddresses(0x1000, 0x1200, 0x400)
    ensures 0x1000 in PageAddresses(0x1300, 0x1400, 0x400)
  {
    PageAddressesMember(0x1000, 0x1200, 0x400, 0x1000);
    PageAddressesMember(0x1300, 0x1400, 0x400, 0x1000);
  }
}
