/**
 The identifiers and list operations that the models share.
 */
module Names {
  type Name = string
  type Tid = string
  type Opid = string
}

module Lists {
  /** A list index as the source's language reads it: a negative one counts from the end. */
  predicate InRange(idx: int, length: nat) {
    0 <= idx + length && idx < length
  }

  function Position(idx: int, length: nat): (i: nat)
    requires InRange(idx, length)
    ensures i < length
  {
    if idx < 0 then idx + length else idx
  }

  /** What it is for an index to name element i: it is i, or i counted from the end. */
  predicate Indexes(idx: int, i: int, length: nat) {
    0 <= i < length && (idx == i || idx == i - length)
  }

  /** An index in range names one element, the one at its position; any other index names none. */
  lemma PositionIndexes(idx: int, length: nat)
    ensures InRange(idx, length) <==> 0 - length <= idx < length
    ensures forall i :: Indexes(idx, i, length) <==> InRange(idx, length) && i == Position(idx, length)
  {
  }

  /** The list after its i-th element is popped. */
  function Without<T>(s: seq<T>, i: nat): seq<T>
    requires i < |s|
  {
    s[..i] + s[i + 1..]
  }

  /** Element by element: `after` is `before` with its i-th element gone and the others in their order. */
  predicate IsPopped<T(==)>(before: seq<T>, after: seq<T>, i: int) {
    && 0 <= i < |before| && |after| == |before| - 1
    && (forall j :: 0 <= j < i ==> after[j] == before[j])
    && (forall j :: i <= j < |after| ==> after[j] == before[j + 1])
  }

  lemma PoppedIsWithout<T>(before: seq<T>, after: seq<T>, i: nat)
    requires i < |before|
    ensures IsPopped(before, after, i) <==> after == Without(before, i)
  {
  }

  function Elements<T>(s: seq<T>): set<T> {
    set x | x in s
  }
}
