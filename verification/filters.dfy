/**
  Instrumentation filters of libafl_qemu's helper module (`IsFilter` and its
  implementations).

  A filter answers whether a filter parameter is allowed. A set of physical
  page ids filters by paging id, a list of half-open guest address ranges
  filters by address, and `QemuFilterList` wraps either one as an allow list,
  a deny list or no filter at all. Guest addresses and page ids are natural
  numbers.
*/
module Filters {

  import Wrappers

  // ---------------------------------------------------------------------------
  // QemuFilterList

  /** `QemuFilterList<T>`: an inner filter used as an allow list, as a deny list,
      or no filtering. */
  datatype FilterList<F> = AllowList(allowList: F) | DenyList(denyList: F) | None

  /** `QemuFilterList::allowed`: the inner filter's answer for an allow list,
      its negation for a deny list, and true when there is no list. `inner` is
      the `IsFilter::allowed` of the inner filter type. */
  function Allowed<F, P>(fl: FilterList<F>, inner: (F, P) -> bool, p: P): bool {
    match fl
    case AllowList(f) => inner(f, p)
    case DenyList(f) => !inner(f, p)
    case None => true
  }

  /** The same inner filter used as an allow list and as a deny list gives
      opposite answers on every parameter. */
  lemma AllowDenyDisagree<F, P>(f: F, inner: (F, P) -> bool, p: P)
    ensures Allowed(AllowList(f), inner, p) != Allowed(DenyList(f), inner, p)
    ensures Allowed(AllowList(f), inner, p) == inner(f, p)
  {
  }

  /** Without a list, every parameter is allowed. */
  lemma NoneAllowsEverything<F, P>(inner: (F, P) -> bool, p: P)
    ensures Allowed(None, inner, p)
  {
  }

  // ---------------------------------------------------------------------------
  // Paging filter: `HashSet<GuestPhysAddr>` with parameter `Option<GuestPhysAddr>`

  /** A paging id is allowed iff it is present and a member of the set. */
  function PagingAllowed(ids: set<nat>, pagingId: Wrappers.Option<nat>): (r: bool)
    ensures pagingId.None? ==> !r
    ensures ids == {} ==> !r
    ensures r ==> pagingId.value in ids
  {
    pagingId.Some? && pagingId.value in ids
  }

  /** `QemuInstrumentationPagingFilter::allowed`. */
  function PagingFilterAllowed(fl: FilterList<set<nat>>, pagingId: Wrappers.Option<nat>): bool {
    Allowed(fl, PagingAllowed, pagingId)
  }

  /** A present paging id is accepted exactly when the set holds it. */
  lemma PagingAcceptsMembers(ids: set<nat>, pid: nat)
    ensures PagingAllowed(ids, Wrappers.Some(pid)) <==> pid in ids
  {
  }

  /** A deny list over paging ids lets a missing paging id through, an allow
      list does not. */
  lemma PagingFilterListOnMissingId(ids: set<nat>)
    ensures !PagingFilterAllowed(AllowList(ids), Wrappers.None)
    ensures PagingFilterAllowed(DenyList(ids), Wrappers.None)
  {
  }

  // ---------------------------------------------------------------------------
  // Address filter: `Vec<Range<GuestAddr>>` with parameter `GuestAddr`

  /** `Range<GuestAddr>`: the addresses from `start` up to but excluding `end`. */
  datatype Range = Range(start: nat, end: nat) {

    /** `Range::contains`. */
    predicate Contains(addr: nat) {
      start <= addr < end
    }
  }

  /** The address lies in at least one of the ranges. */
  predicate InSomeRange(ranges: seq<Range>, addr: nat) {
    exists i :: 0 <= i < |ranges| && ranges[i].Contains(addr)
  }

  /** The address filter: scans the ranges in order and answers true at the
      first range that contains the address, false when none does. */
  method RangesAllowed(ranges: seq<Range>, addr: nat) returns (ok: bool)
    ensures ok == InSomeRange(ranges, addr)
  {
    for i := 0 to |ranges|
      invariant forall j :: 0 <= j < i ==> !ranges[j].Contains(addr)
    {
      if ranges[i].Contains(addr) {
        return true;
      }
    }
    return false;
  }

  /** `QemuInstrumentationAddressRangeFilter::allowed`, running the range scan
      for allow and deny lists. */
  method AddressFilterAllowed(fl: FilterList<seq<Range>>, addr: nat) returns (ok: bool)
    ensures ok == Allowed(fl, InSomeRange, addr)
  {
    match fl {
      case AllowList(ranges) =>
        ok := RangesAllowed(ranges, addr);
      case DenyList(ranges) =>
        var inside := RangesAllowed(ranges, addr);
        ok := !inside;
      case None =>
        ok := true;
    }
  }

  /** An empty range list rejects every address. */
  lemma EmptyRangesRejectAll(addr: nat)
    ensures !InSomeRange([], addr)
  {
  }

  /** A range whose end is not above its start contains nothing. */
  lemma InvertedRangeNeverMatches(r: Range, addr: nat)
    requires r.end <= r.start
    ensures !r.Contains(addr)
  {
  }

  /** A single range accepts its start (when non-empty) and never its end. */
  lemma UpperBoundExclusive(start: nat, end: nat)
    ensures !InSomeRange([Range(start, end)], end)
    ensures InSomeRange([Range(start, end)], start) <==> start < end
  {
    if start < end {
      assert [Range(start, end)][0].Contains(start);
    }
  }

  /** Appending a range accepts what the old list accepted plus what the new
      range contains, and nothing else. */
  lemma InSomeRangeAppend(ranges: seq<Range>, r: Range, addr: nat)
    ensures InSomeRange(ranges + [r], addr) <==> InSomeRange(ranges, addr) || r.Contains(addr)
  {
    var extended := ranges + [r];
    if InSomeRange(ranges, addr) {
      var i :| 0 <= i < |ranges| && ranges[i].Contains(addr);
      assert extended[i] == ranges[i];
    }
    if r.Contains(addr) {
      assert extended[|ranges|] == r;
    }
    if InSomeRange(extended, addr) {
      var i :| 0 <= i < |extended| && extended[i].Contains(addr);
      if i < |ranges| {
        assert ranges[i] == extended[i];
      }
    }
  }

  /** Inserting a range anywhere in the list never turns an accepted address
      into a rejected one. */
  lemma AddingRangeKeepsAccepted(ranges: seq<Range>, k: nat, r: Range, addr: nat)
    requires k <= |ranges|
    requires InSomeRange(ranges, addr)
    ensures InSomeRange(ranges[..k] + [r] + ranges[k..], addr)
  {
    var extended := ranges[..k] + [r] + ranges[k..];
    var i :| 0 <= i < |ranges| && ranges[i].Contains(addr);
    if i < k {
      assert extended[i] == ranges[i];
    } else {
      assert extended[i + 1] == ranges[i];
    }
  }

  /** Acceptance depends only on which ranges are listed, not on their order
      or repetition. */
  lemma InSomeRangeBySet(ranges: seq<Range>, others: seq<Range>, addr: nat)
    requires forall r :: r in ranges <==> r in others
    ensures InSomeRange(ranges, addr) == InSomeRange(others, addr)
  {
    if InSomeRange(ranges, addr) {
      var i :| 0 <= i < |ranges| && ranges[i].Contains(addr);
      assert ranges[i] in others;
    }
    if InSomeRange(others, addr) {
      var i :| 0 <= i < |others| && others[i].Contains(addr);
      assert others[i] in ranges;
    }
  }

  /** The address filter on ranges [0x10, 0x20) and [0x30, 0x40). */
  lemma AddressFilterExample()
    ensures var ranges := [Range(0x10, 0x20), Range(0x30, 0x40)];
            InSomeRange(ranges, 0x15) && !InSomeRange(ranges, 0x25)
            && InSomeRange(ranges, 0x30) && !InSomeRange(ranges, 0x40)
            && !Allowed(DenyList(ranges), InSomeRange, 0x15)
            && Allowed(DenyList(ranges), InSomeRange, 0x25)
            && !Allowed(DenyList(ranges), InSomeRange, 0x30)
            && Allowed(DenyList(ranges), InSomeRange, 0x40)
  {
    var ranges := [Range(0x10, 0x20), Range(0x30, 0x40)];
    assert ranges[0].Contains(0x15);
    assert ranges[1].Contains(0x30);
  }

  /** The paging filter on ids {5, 7}. */
  lemma PagingFilterExample()
    ensures PagingAllowed({5, 7}, Wrappers.Some(5))
    ensures !PagingAllowed({5, 7}, Wrappers.Some(6))
    ensures !PagingAllowed({5, 7}, Wrappers.None)
  {
  }
}
