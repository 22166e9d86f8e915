/** Ergs (execution-environment resource) and native (proving resource). */
module Resources {
  import opened Numbers

  const ERGS_PER_GAS: nat := 256

  datatype ChargeError = OutOfErgs | OutOfNative

  datatype Resources = Resources(ergs: u64, native: u64) {

    /**
     * Takes `c` away. When native is short it is emptied and the ergs are charged all the
     * same; when only ergs are short they are emptied.
     */
    function Charge(c: Resources): (r: (Resources, Option<ChargeError>))
      ensures r.0.ergs <= ergs && r.0.native <= native
      ensures r.1.None? <==> c.ergs <= ergs && c.native <= native
      ensures r.1.None? ==> r.0.ergs + c.ergs == ergs && r.0.native + c.native == native
      ensures r.1 == Some(OutOfErgs) <==> c.ergs > ergs && c.native <= native
    {
      if native < c.native then
        (Resources(if ergs < c.ergs then 0 else ergs - c.ergs, 0), Some(OutOfNative))
      else if ergs < c.ergs then
        (Resources(0, native - c.native), Some(OutOfErgs))
      else
        (Resources(ergs - c.ergs, native - c.native), None)
    }

    /** `charge_unchecked`: the subtraction must not underflow. */
    function ChargeUnchecked(c: Resources): Resources
      requires c.ergs <= ergs && c.native <= native
    {
      Resources(ergs - c.ergs, native - c.native)
    }

    /**
     * Gives resources back. The additions must not overflow, and native may be handed over
     * but never merged: one of the two sides holds none.
     */
    function Reclaim(r: Resources): Resources
      requires ergs + r.ergs <= U64_MAX
      requires native == 0 || r.native == 0
    {
      Resources(ergs + r.ergs, native + r.native)
    }

    /** `add_ergs`: the addition must not overflow. */
    function AddErgs(e: nat): Resources
      requires ergs + e <= U64_MAX
    {
      this.(ergs := ergs + e)
    }

    predicate HasEnough(c: Resources) { c.ergs <= ergs && c.native <= native }

    predicate Within(limit: Resources) { ergs <= limit.ergs && native <= limit.native }
  }

  const EMPTY := Resources(0, 0)
  const FORMAL_INFINITE := Resources(U64_MAX, U64_MAX)

  /** All but one 64th of the gas; the rule works on gas, so the part kept is whole gas. */
  function Apply63Of64(ergs: u64): (r: u64)
    ensures r <= ergs
    ensures (ergs - r) % ERGS_PER_GAS == 0
    ensures 64 * (ergs - r) <= ergs < 64 * (ergs - r) + 64 * ERGS_PER_GAS
  {
    var gas := ergs / ERGS_PER_GAS;
    ergs - (gas / 64) * ERGS_PER_GAS
  }
}
