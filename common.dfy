/** Small helpers shared by every module of the model. */
module Common {

  /** A value that may be missing: the model of a C# reference that may be null. */
  datatype Option<+T> = None | Some(value: T)

  /** `rest` is `s` with the element at index c taken out. */
  ghost predicate RemovedAt<E>(rest: seq<E>, s: seq<E>, c: nat)
  {
    && c < |s|
    && |rest| == |s| - 1
    && (forall i {:trigger rest[i]} :: 0 <= i < |rest| ==> rest[i] == s[if i < c then i else i + 1])
  }

  /** Cutting out index c is the one removal at c. */
  lemma RemovedAtIsCut<E>(rest: seq<E>, s: seq<E>, c: nat)
    requires RemovedAt(rest, s, c)
    ensures rest == s[..c] + s[c + 1..]
  {
  }

  /** Dropping the element at index i of s behind a prefix a. */
  lemma SpliceIsRemovedAt<E>(a: seq<E>, s: seq<E>, i: nat)
    requires i < |s|
    ensures RemovedAt(a + s[i + 1..], a + s[i..], |a|)
  {
  }

  /** The only removal at index |a| from a + s[i..] is a + s[i + 1..]. */
  lemma RemovedAtSplice<E>(r: seq<E>, a: seq<E>, s: seq<E>, i: nat)
    requires i < |s| && RemovedAt(r, a + s[i..], |a|)
    ensures r == a + s[i + 1..]
  {
    SpliceIsRemovedAt(a, s, i);
  }

  /** A suffix starting at index i splits off its first element. */
  lemma DropSplit<E>(s: seq<E>, i: nat)
    requires i < |s|
    ensures s[i..] == [s[i]] + s[i + 1..]
  {
  }

  /** Dropping one more element from the front of a suffix. */
  lemma DropStep<E>(s: seq<E>, k: nat)
    requires k < |s|
    ensures s[k..][1..] == s[k + 1..] && s[k..][0] == s[k]
  {
  }
}
