/**
 * The collaborators of the two recovery checks of a block page: the `Recovery`
 * sink, which hands out the checksum and records the problems it is told about,
 * and the view of the pager that `verifyAddresses` consults.
 */
module Recoveries {
  import opened Bytes
  import opened PageFormat

  /** One problem reported to the sink, with the position of the page it concerns. */
  datatype Report =
    | CorruptDataPageAt(position: int)
    | BadUserChecksumAt(position: int)
    | BadUserAddressAt(position: int, address: int)

  /**
   * `Recovery`: `getChecksum()` is the checksum algorithm `checksum`; each of
   * `corruptDataPage`, `badUserChecksum` and `badUserAddress` appends its report.
   */
  class Recovery {
    const checksum: ChecksumFn
    var reports: seq<Report>

    constructor (checksum: ChecksumFn)
      ensures this.checksum == checksum && reports == []
    {
      this.checksum := checksum;
      reports := [];
    }

    method CorruptDataPage(position: int)
      modifies this
      ensures reports == old(reports) + [CorruptDataPageAt(position)]
    {
      reports := reports + [CorruptDataPageAt(position)];
    }

    method BadUserChecksum(position: int)
      modifies this
      ensures reports == old(reports) + [BadUserChecksumAt(position)]
    {
      reports := reports + [BadUserChecksumAt(position)];
    }

    method BadUserAddress(position: int, address: int)
      modifies this
      ensures reports == old(reports) + [BadUserAddressAt(position, address)]
    {
      reports := reports + [BadUserAddressAt(position, address)];
    }
  }

  /** What `verifyChecksum` reports for a page at `position` with verdict `v`: nothing when it verifies. */
  function VerdictReports(v: Verdict, position: int): (r: seq<Report>)
    ensures r == [] <==> v == Verified
    ensures v == CorruptDataPage ==> r == [CorruptDataPageAt(position)]
    ensures v == BadUserChecksum ==> r == [BadUserChecksumAt(position)]
  {
    match v
    case Verified => []
    case CorruptDataPage => [CorruptDataPageAt(position)]
    case BadUserChecksum => [BadUserChecksumAt(position)]
  }

  /**
   * What `verifyAddresses` learns from the pager: the first address page's start,
   * the size of an address page header (`Pack.ADDRESS_PAGE_HEADER_SIZE`), the user
   * boundary's position, and the position each address dereferences to through
   * its address page (`getPage(address, new AddressPage()).dereference(address)`).
   */
  datatype PagerView = PagerView(
    firstAddressPageStart: int, addressPageHeaderSize: int, userBoundary: int, dereference: Int64 -> int)

  /** `address` lies in the user address range: past the first address page's header and below the user boundary. */
  predicate InUserRange(pager: PagerView, address: Int64)
  {
    pager.firstAddressPageStart + pager.addressPageHeaderSize <= address < pager.userBoundary
  }

  /**
   * The reports the check of one live `address` on the page at `position` makes: one
   * when it is outside the user range, and one more when its address page does not
   * lead back to this page.
   */
  function AddressReport(pager: PagerView, position: int, address: Int64): (r: seq<Report>)
    ensures r == [] <==> InUserRange(pager, address) && pager.dereference(address) == position
    ensures forall j :: 0 <= j < |r| ==> r[j] == BadUserAddressAt(position, address)
  {
    (if InUserRange(pager, address) then [] else [BadUserAddressAt(position, address)])
    + (if pager.dereference(address) == position then [] else [BadUserAddressAt(position, address)])
  }

  /** The reports of checking each of `addresses` in turn. */
  function AddressReports(pager: PagerView, position: int, addresses: seq<Int64>): seq<Report>
  {
    if |addresses| == 0 then []
    else AddressReports(pager, position, addresses[..|addresses| - 1])
         + AddressReport(pager, position, addresses[|addresses| - 1])
  }

  lemma AddressReportsSnoc(pager: PagerView, position: int, addresses: seq<Int64>, a: Int64)
    ensures AddressReports(pager, position, addresses + [a])
         == AddressReports(pager, position, addresses) + AddressReport(pager, position, a)
  {
    assert (addresses + [a])[..|addresses|] == addresses;
  }

  /** A page's addresses check out, with nothing reported, exactly when every one is in range and leads back to the page. */
  lemma {:induction false} AddressReportsEmpty(pager: PagerView, position: int, addresses: seq<Int64>)
    ensures AddressReports(pager, position, addresses) == []
        <==> forall j :: 0 <= j < |addresses| ==>
               InUserRange(pager, addresses[j]) && pager.dereference(addresses[j]) == position
  {
    if |addresses| > 0 {
      var init := addresses[..|addresses| - 1];
      AddressReportsEmpty(pager, position, init);
      assert forall j :: 0 <= j < |init| ==> init[j] == addresses[j];
    }
  }

  /** Every report of the check names this page and one of the addresses checked. */
  lemma {:induction false} AddressReportsName(pager: PagerView, position: int, addresses: seq<Int64>)
    ensures forall j :: 0 <= j < |AddressReports(pager, position, addresses)| ==>
      exists k :: 0 <= k < |addresses| && AddressReports(pager, position, addresses)[j] == BadUserAddressAt(position, addresses[k])
  {
    if |addresses| > 0 {
      var init := addresses[..|addresses| - 1];
      var last := |addresses| - 1;
      AddressReportsName(pager, position, init);
      var r := AddressReports(pager, position, addresses);
      var ri := AddressReports(pager, position, init);
      var tail := AddressReport(pager, position, addresses[last]);
      assert r == ri + tail;
      forall j | 0 <= j < |r|
        ensures exists k :: 0 <= k < |addresses| && r[j] == BadUserAddressAt(position, addresses[k])
      {
        if j < |ri| {
          var k :| 0 <= k < |init| && ri[j] == BadUserAddressAt(position, init[k]);
          assert r[j] == ri[j] && init[k] == addresses[k];
        } else {
          assert r[j] == tail[j - |ri|] == BadUserAddressAt(position, addresses[last]);
        }
      }
      assert r == AddressReports(pager, position, addresses);
    } else {
      assert AddressReports(pager, position, addresses) == [];
    }
  }
}
