/**
 * Vavr's `Validation<E, T>` restated as a datatype, together with the
 * applicative combination `Validation.combine(v1, v2).ap(f)` that the person
 * validator relies on to collect every error instead of stopping at the first.
 */
module Validations {

  /** Either a valid value or the error that rejected it. */
  datatype Validation<+E, +T> = Valid(value: T) | Invalid(error: E) {

    /**
     * `this.ap(vf)`: applies the function held by `vf` to this value when
     * both are valid; otherwise accumulates the errors, those already held
     * by `vf` first and this one's error after them.
     */
    function Ap<U>(vf: Validation<seq<E>, T -> U>): (r: Validation<seq<E>, U>)
      ensures r.Valid? <==> Valid? && vf.Valid?
      ensures r.Valid? ==> r.value == vf.value(value)
      ensures Valid? && vf.Invalid? ==> r.error == vf.error
      ensures Invalid? && vf.Valid? ==> r.error == [error]
      ensures Invalid? && vf.Invalid? ==> r.error == vf.error + [error]
    {
      match this
      case Valid(t) =>
        (match vf
         case Valid(f) => Valid(f(t))
         case Invalid(errs) => Invalid(errs))
      case Invalid(e) =>
        (match vf
         case Valid(_) => Invalid([e])
         case Invalid(errs) => Invalid(errs + [e]))
    }
  }

  /**
   * `Validation.combine(va, vb).ap(f)`: the builder curries `f` and applies it
   * through `va` first and `vb` second.
   */
  function Combine2<E, A, B, R>(va: Validation<E, A>, vb: Validation<E, B>, f: (A, B) -> R)
    : (r: Validation<seq<E>, R>)
    ensures r.Valid? <==> va.Valid? && vb.Valid?
    ensures r.Valid? ==> r.value == f(va.value, vb.value)
    ensures va.Invalid? && vb.Invalid? ==> r.error == [va.error, vb.error]
    ensures va.Invalid? && vb.Valid? ==> r.error == [va.error]
    ensures va.Valid? && vb.Invalid? ==> r.error == [vb.error]
  {
    var curried: Validation<seq<E>, A -> B -> R> := Valid((a: A) => (b: B) => f(a, b));
    vb.Ap(va.Ap(curried))
  }
}
