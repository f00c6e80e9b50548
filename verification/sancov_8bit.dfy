/**
  The registry of SanitizerCoverage 8-bit counter maps in libafl_targets.

  The instrumented program calls `__sanitizer_cov_8bit_counters_init(start,
  stop)` once per module with the bounds of that module's counter array; each
  call appends one map covering `start..stop` to the global `COUNTERS_MAPS`,
  which starts empty. A map is recorded by its base address and its length in
  bytes; the counter bytes themselves are not modelled.
*/
module Sancov8bit {

  /** A `&'static mut [u8]` counter map: `len` bytes starting at `base`. */
  datatype CounterMap = CounterMap(base: nat, len: nat)

  /** One init call with its `start` and `stop` pointers. */
  datatype InitCall = InitCall(start: nat, stop: nat)

  /** Every call passed a `stop` not below its `start`. */
  predicate WellFormed(calls: seq<InitCall>) {
    forall i :: 0 <= i < |calls| ==> calls[i].start <= calls[i].stop
  }

  /** The registry after the given init calls, made in order from an empty
      one. */
  function Registry(calls: seq<InitCall>): seq<CounterMap>
    requires WellFormed(calls)
  {
    if |calls| == 0 then []
    else
      var last := calls[|calls| - 1];
      Registry(calls[..|calls| - 1]) + [CounterMap(last.start, last.stop - last.start)]
  }

  /** The registry holds one map per call, in call order: the i-th map starts
      at the i-th call's `start` and spans up to its `stop`. */
  lemma {:induction false} RegistryAt(calls: seq<InitCall>)
    requires WellFormed(calls)
    ensures |Registry(calls)| == |calls|
    ensures forall i :: 0 <= i < |calls| ==>
              Registry(calls)[i] == CounterMap(calls[i].start, calls[i].stop - calls[i].start)
  {
    if |calls| > 0 {
      RegistryAt(calls[..|calls| - 1]);
    }
  }

  /** Registration is incremental: later calls only append to what earlier
      calls registered, so no map is removed, reordered or merged. */
  lemma {:induction false} RegistryAppend(earlier: seq<InitCall>, later: seq<InitCall>)
    requires WellFormed(earlier) && WellFormed(later)
    ensures WellFormed(earlier + later)
    ensures Registry(earlier + later) == Registry(earlier) + Registry(later)
    decreases |later|
  {
    var all := earlier + later;
    assert WellFormed(all) by {
      forall i | 0 <= i < |all|
        ensures all[i].start <= all[i].stop
      {
        if i >= |earlier| {
          assert all[i] == later[i - |earlier|];
        }
      }
    }
    if |later| == 0 {
      assert all == earlier;
    } else {
      var init := later[..|later| - 1];
      assert all[..|all| - 1] == earlier + init;
      RegistryAppend(earlier, init);
    }
  }

  /** Nothing checks for duplicates: the same bounds registered twice give two
      maps over the same bytes. */
  lemma DuplicatesAreKept(start: nat, stop: nat)
    requires start <= stop
    ensures Registry([InitCall(start, stop), InitCall(start, stop)])
         == [CounterMap(start, stop - start), CounterMap(start, stop - start)]
  {
    var call := InitCall(start, stop);
    assert [call, call][..1] == [call];
    assert [call][..0] == [];
    assert Registry([call]) == [CounterMap(start, stop - start)];
  }

  /** `COUNTERS_MAPS` together with the init calls made so far. */
  class CountersMaps {
    var maps: seq<CounterMap>
    ghost var calls: seq<InitCall>

    ghost predicate Valid()
      reads this
    {
      WellFormed(calls) && maps == Registry(calls)
    }

    /** `Vec::new()`: the registry starts empty. */
    constructor()
      ensures Valid()
      ensures maps == [] && calls == []
    {
      maps := [];
      calls := [];
    }

    /** `__sanitizer_cov_8bit_counters_init`: appends exactly one map, based
        at `start` and `stop - start` bytes long; the maps already registered
        are unchanged. */
    method CountersInit(start: nat, stop: nat)
      requires Valid()
      requires start <= stop
      modifies this
      ensures Valid()
      ensures calls == old(calls) + [InitCall(start, stop)]
      ensures maps == old(maps) + [CounterMap(start, stop - start)]
    {
      calls := calls + [InitCall(start, stop)];
      assert calls[..|calls| - 1] == old(calls);
      maps := maps + [CounterMap(start, stop - start)];
    }
  }

  /** Two modules registering counter arrays of 8 and 16 bytes. */
  method RegistryExample() returns (r: CountersMaps)
    ensures r.Valid()
    ensures r.maps == [CounterMap(0x1000, 8), CounterMap(0x2000, 16)]
  {
    r := new CountersMaps();
    r.CountersInit(0x1000, 0x1008);
    r.CountersInit(0x2000, 0x2010);
  }
}
