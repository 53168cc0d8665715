/**
 * Shared vocabulary: nullable values, outcomes with an error, and Ruby's
 * `blank?` / `present?` on strings and nil.
 */
module Common {

  /** A nullable column or argument: `None` stands for Ruby's `nil`. */
  datatype Option<+T> = None | Some(value: T)

  /** The outcome of an operation that may fail with an error value. */
  datatype Result<+R, +E> = Ok(value: R) | Err(error: E)

  /** The ASCII whitespace characters that `blank?` skips. */
  predicate IsSpace(c: char)
  {
    c == ' ' || c == '\t' || c == '\n' || c == '\r' || c as int == 0x0B || c as int == 0x0C
  }

  /** `String#blank?`: the string is empty or holds only whitespace. */
  predicate BlankString(s: string)
  {
    forall i :: 0 <= i < |s| ==> IsSpace(s[i])
  }

  /** `blank?` on a nullable string: nil is blank too. */
  predicate Blank(s: Option<string>)
  {
    s.None? || BlankString(s.value)
  }

  /** `present?`, the negation of `blank?`. */
  predicate Present(s: Option<string>)
  {
    !Blank(s)
  }

  /** The elements of `s` that `keep` accepts, in their order: a `where`
      clause over a table held as a sequence of rows. */
  function Filter<T(!new)>(s: seq<T>, keep: T -> bool): (r: seq<T>)
    ensures |r| <= |s|
    ensures forall x :: x in r <==> x in s && keep(x)
  {
    if s == [] then [] else
    var last := s[|s| - 1];
    Filter(s[..|s| - 1], keep) + (if keep(last) then [last] else [])
  }
}
