/** The few PHP value semantics the CMS classes depend on. */
module Php {

  /**
   * The values the CMS keeps in its fields: null, the `false` that
   * file_get_contents returns on failure, or a string.
   */
  datatype PhpValue = Null | False | Str(s: string)

  /**
   * `$v == null` with PHP's loose comparison: null is compared with a bool
   * as false and with a string as "", so null, false and "" are loosely null
   * and every other string (even "0") is not.
   */
  predicate LooselyNull(v: PhpValue)
  {
    v.Null? || v.False? || v == Str("")
  }
}
