/** Option type shared by every module: `None` stands for the source's
    "no value" outcomes (an exception, an empty range passed to `min`). */
module Wrappers {
  datatype Option<T> = None | Some(value: T)

  /** A non-empty set has a member; loops that walk a set in unspecified
      order call this before choosing their next element. */
  lemma MemberOf<T>(s: set<T>) returns (x: T)
    requires s != {}
    ensures x in s
  {
    assert (forall y :: y !in s) ==> s == {};
    x :| x in s;
  }
}
