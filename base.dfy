/** Small generic helpers shared by the other modules. */
module Base {

  datatype Option<+T> = None | Some(value: T)

  /** The Java exceptions that the modelled code can raise on its own. */
  datatype Fault = NullPointerException | IndexOutOfBoundsException

  datatype Result<+T> = Ok(value: T) | Fail(fault: Fault)

  /** An exception leaving a modelled operation: a `RuntimeException` with its
      message, or one of the faults above. */
  datatype Thrown = RuntimeException(message: string) | Raised(fault: Fault)

  predicate NoDup<T(==)>(s: seq<T>) {
    forall i, j :: 0 <= i < j < |s| ==> s[i] != s[j]
  }

  function Elems<T>(s: seq<T>): set<T> {
    set x | x in s
  }

  /** A duplicate-free sequence has as many distinct elements as entries. */
  lemma {:induction false} NoDupCard<T>(s: seq<T>)
    requires NoDup(s)
    ensures |Elems(s)| == |s|
  {
    if s != [] {
      var t := s[..|s| - 1];
      assert NoDup(t);
      NoDupCard(t);
      assert Elems(s) == Elems(t) + {s[|s| - 1]};
      assert s[|s| - 1] !in Elems(t);
    }
  }

  /** Concatenation is associative. */
  lemma ConcatAssoc<T>(a: seq<T>, b: seq<T>, c: seq<T>)
    ensures a + b + c == a + (b + c)
  {
  }

  /** A non-empty sequence is its front and its last element. */
  lemma SplitLast<T>(s: seq<T>)
    requires s != []
    ensures s == s[..|s| - 1] + [s[|s| - 1]]
  {
  }

  /** Dropping the last element of a + b, b non-empty. */
  lemma DropLast<T>(a: seq<T>, b: seq<T>)
    requires b != []
    ensures (a + b)[..|a + b| - 1] == a + b[..|b| - 1] && (a + b)[|a + b| - 1] == b[|b| - 1]
  {
  }

  /** The front of a + b, a non-empty. */
  lemma DropFirst<T>(a: seq<T>, b: seq<T>)
    requires a != []
    ensures (a + b)[0] == a[0] && (a + b)[1..] == a[1..] + b
  {
  }

  /** Regrouping a left-nested concatenation of five parts. */
  lemma Regroup5<T>(a: seq<T>, b: seq<T>, c: seq<T>, d: seq<T>, e: seq<T>)
    ensures a + b + c + d + e == a + (b + (c + d + e))
  {
    ConcatAssoc(a + b, c + d, e);
    ConcatAssoc(a + b, c, d);
    ConcatAssoc(a, b, c + d + e);
  }

  /** Regrouping a left-nested concatenation of six parts to the right. */
  lemma Regroup6<T>(p: seq<T>, a: seq<T>, b: seq<T>, c: seq<T>, d: seq<T>, e: seq<T>)
    ensures p + a + b + c + d + e == p + (a + (b + (c + (d + e))))
  {
    ConcatAssoc(p + a + b + c, d, e);
    ConcatAssoc(p + a + b, c, d + e);
    ConcatAssoc(p + a, b, c + (d + e));
    ConcatAssoc(p, a, b + (c + (d + e)));
  }

  /** The first k + 1 elements are the first k and the k-th. */
  lemma TakeNext<T>(s: seq<T>, k: nat)
    requires k < |s|
    ensures s[..k + 1] == s[..k] + [s[k]]
  {
  }

  /** Taking every element gives the sequence back. */
  lemma TakeAll<T>(s: seq<T>)
    ensures s[..|s|] == s
  {
  }

  /** What follows a prefix. */
  lemma DropPrefix<T>(a: seq<T>, b: seq<T>)
    ensures (a + b)[|a|..] == b
  {
  }
}
