/** Shared value types of the course scheduler: the optional value that
    stands for JavaScript's `undefined`/`NaN`/`null`, the catalogue record,
    and the order-preserving subsequence relation used by every filter. */
module Types {

  /** `Some(v)` is a defined value; `None` is `undefined`, `NaN` or `null`,
      as the context says. */
  datatype Option<T> = None | Some(value: T)

  /** A catalogue course (src/types/index.ts:1-16), restricted to the fields
      the modelled code reads. Times are schedule strings such as
      "MWF 09:00-09:50". */
  datatype Course = Course(
    id: string,
    name: string,
    crn: string,
    professor: string,
    credits: int,
    time: string,
    seatsAvailable: int,
    waitlistCount: int)

  /** `sub` can be obtained from `s` by deleting elements, so it keeps the
      relative order of what it retains. */
  predicate IsSubsequence<T(==)>(sub: seq<T>, s: seq<T>)
    decreases |s|
  {
    if |sub| == 0 then true
    else if |s| == 0 then false
    else (sub[0] == s[0] && IsSubsequence(sub[1..], s[1..])) || IsSubsequence(sub, s[1..])
  }

  /** Every sequence is a subsequence of itself. */
  lemma {:induction false} SubsequenceReflexive<T>(s: seq<T>)
    ensures IsSubsequence(s, s)
  {
    if |s| > 0 {
      SubsequenceReflexive(s[1..]);
    }
  }

  /** A subsequence never holds an element the sequence does not. */
  lemma {:induction false} SubsequenceElements<T>(sub: seq<T>, s: seq<T>)
    requires IsSubsequence(sub, s)
    ensures forall x :: x in sub ==> x in s
    decreases |s|
  {
    if |sub| > 0 {
      if sub[0] == s[0] && IsSubsequence(sub[1..], s[1..]) {
        SubsequenceElements(sub[1..], s[1..]);
        forall x | x in sub
          ensures x in s
        {
          if x != sub[0] {
            assert x in sub[1..];
          }
        }
      } else {
        SubsequenceElements(sub, s[1..]);
      }
    }
  }

  /** A subsequence stays one when the list grows at the end. */
  lemma {:induction false} SubsequenceExtend<T>(sub: seq<T>, s: seq<T>, x: T)
    requires IsSubsequence(sub, s)
    ensures IsSubsequence(sub, s + [x])
    decreases |s|
  {
    if |sub| > 0 {
      assert (s + [x])[1..] == s[1..] + [x];
      if sub[0] == s[0] && IsSubsequence(sub[1..], s[1..]) {
        SubsequenceExtend(sub[1..], s[1..], x);
      } else {
        SubsequenceExtend(sub, s[1..], x);
      }
    }
  }

  /** Appending the same element to both keeps the subsequence relation. */
  lemma {:induction false} SubsequenceAppend<T>(sub: seq<T>, s: seq<T>, x: T)
    requires IsSubsequence(sub, s)
    ensures IsSubsequence(sub + [x], s + [x])
    decreases |s|
  {
    if |sub| == 0 {
      assert sub + [x] == [x];
      SubsequenceTail([x], s);
    } else {
      assert (s + [x])[1..] == s[1..] + [x];
      assert (sub + [x])[1..] == sub[1..] + [x];
      if sub[0] == s[0] && IsSubsequence(sub[1..], s[1..]) {
        SubsequenceAppend(sub[1..], s[1..], x);
      } else {
        SubsequenceAppend(sub, s[1..], x);
      }
    }
  }

  /** A one-element list is a subsequence of any list that ends with it. */
  lemma {:induction false} SubsequenceTail<T>(single: seq<T>, s: seq<T>)
    requires |single| == 1
    ensures IsSubsequence(single, s + single)
    decreases |s|
  {
    if |s| > 0 {
      assert (s + single)[1..] == s[1..] + single;
      SubsequenceTail(single, s[1..]);
    } else {
      assert single[1..] == [];
    }
  }
}
