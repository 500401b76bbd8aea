/**
 * Core predicates and primitives shared by every helper module (src/utils/std.ts):
 * the optional-value shape, the defined-ness check, `assertDefined`, the trivial
 * combinators and the Result constructors.
 */
module Std {

  /** A value that may be absent: JavaScript's `undefined`, `null`, or a present value. */
  datatype Optional<+T> = Undefined | Null | Defined(value: T)

  /** The library's Result shape: `{ ok: true, value }` or `{ ok: false, error }`. */
  datatype Result<+T, +E> = Ok(value: T) | Err(error: E) {
    /** The `ok` discriminant of the record. */
    predicate IsOk() { Ok? }
  }

  /** The message `assertDefined` throws when the caller gives none. */
  const DefaultUndefinedMessage: string := "Value is undefined or null"

  /** `isDefined`: neither `undefined` nor `null`. */
  predicate IsDefined<T>(v: Optional<T>)
    ensures IsDefined(v) <==> !v.Undefined? && !v.Null?
  {
    v.Defined?
  }

  /** The nullish-coalescing operator `a ?? fallback`. */
  function Coalesce<T>(a: Optional<T>, fallback: T): (r: T)
    ensures IsDefined(a) ==> r == a.value
    ensures !IsDefined(a) ==> r == fallback
  {
    if IsDefined(a) then a.value else fallback
  }

  /**
   * `assertDefined(value, message?)`: the value itself when it is defined; otherwise the
   * thrown error, carrying `message ?? 'Value is undefined or null'`.
   */
  function AssertDefined<T>(v: Optional<T>, message: Optional<string>): (r: Result<T, string>)
    ensures r.Ok? <==> IsDefined(v)
    ensures r.Ok? ==> Defined(r.value) == v
    ensures r.Err? && message.Defined? ==> r.error == message.value
    ensures r.Err? && !message.Defined? ==> r.error == DefaultUndefinedMessage
  {
    if !IsDefined(v) then Err(Coalesce(message, DefaultUndefinedMessage)) else Ok(v.value)
  }

  /** `identity`. */
  function Identity<T>(v: T): (r: T)
    ensures r == v
  {
    v
  }

  /**
   * `not(fn)`: a predicate that forwards its arguments to `fn` and negates the answer.
   * The arguments of the JavaScript rest-parameter list are one tuple-typed value here.
   */
  function Not<A(!new)>(fn: A -> bool): (r: A -> bool)
    ensures forall args :: r(args) == !fn(args)
  {
    args => !fn(args)
  }

  /** Negating twice gives back the original predicate, pointwise. */
  lemma NotNot<A(!new)>(fn: A -> bool, args: A)
    ensures Not(Not(fn))(args) == fn(args)
  {
    assert Not(fn)(args) == !fn(args);
  }

  /** `ok(value)`: the success variant. */
  function MakeOk<T, E>(value: T): (r: Result<T, E>)
    ensures r.IsOk() && r.value == value
  {
    Ok(value)
  }

  /** `err(error)`: the failure variant. */
  function MakeErr<T, E>(error: E): (r: Result<T, E>)
    ensures !r.IsOk() && r.error == error
  {
    Err(error)
  }
}
