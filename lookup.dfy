/**
 * The outcome of a bounds-checked access: the element found, or the
 * `std::out_of_range` exception that `at` throws.
 */
module Lookups {
  datatype Lookup<T> = Found(value: T) | OutOfRange
}
