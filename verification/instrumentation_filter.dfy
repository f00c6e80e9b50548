/**
  `HasInstrumentationFilter::update_filter` of libafl_qemu's helper module: a
  helper's instrumentation filter is replaced and the emulator's translated
  code cache is flushed, so that blocks translated under the old filter are
  translated again under the new one.
*/
module InstrumentationFilter {

  import Filters

  /** The emulator, observed only through how often its JIT cache was flushed. */
  class Qemu {
    var jitFlushes: nat

    constructor()
      ensures jitFlushes == 0
    {
      jitFlushes := 0;
    }

    /** `Qemu::flush_jit`. */
    method FlushJit()
      modifies this
      ensures jitFlushes == old(jitFlushes) + 1
    {
      jitFlushes := jitFlushes + 1;
    }
  }

  /** A helper that implements `HasInstrumentationFilter<F>`: it owns a filter
      of type `F`, reached through `filter` and `filter_mut`. */
  class FilteredHelper<F> {
    var filter: F

    constructor(f: F)
      ensures filter == f
    {
      filter := f;
    }

    /** `update_filter`: the new filter replaces the old one, whatever either
        is, and the JIT cache is flushed exactly once, even when the new filter
        equals the old. */
    method UpdateFilter(f: F, emu: Qemu)
      modifies this, emu
      ensures filter == f
      ensures emu.jitFlushes == old(emu.jitFlushes) + 1
    {
      filter := f;
      emu.FlushJit();
    }
  }

  /** After an update, an address-range helper answers with the new filter and
      the emulator has flushed once per update. */
  method UpdateThenQuery(
    helper: FilteredHelper<Filters.FilterList<seq<Filters.Range>>>,
    emu: Qemu,
    f: Filters.FilterList<seq<Filters.Range>>,
    addr: nat
  ) returns (ok: bool)
    modifies helper, emu
    ensures helper.filter == f
    ensures ok == Filters.Allowed(f, Filters.InSomeRange, addr)
    ensures emu.jitFlushes == old(emu.jitFlushes) + 1
  {
    helper.UpdateFilter(f, emu);
    ok := Filters.AddressFilterAllowed(helper.filter, addr);
  }
}
