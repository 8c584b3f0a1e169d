/** Small generic building blocks shared by the whole model: an optional value,
    a success-or-error result, and the sequence facts the table operations need. */
module Common {

  datatype Option<+T> = None | Some(value: T)

  datatype Result<+T, +E> = Ok(value: T) | Err(error: E)

  /** No element occurs twice (a table whose rows are pairwise distinct). */
  ghost predicate NoDup<T>(s: seq<T>) {
    forall i, j | 0 <= i < j < |s| :: s[i] != s[j]
  }

  /** Putting a new element in front of a list without repeats keeps it without repeats. */
  lemma NoDupCons<T>(x: T, s: seq<T>)
    requires NoDup(s) && x !in s
    ensures NoDup([x] + s)
  {
    var r := [x] + s;
    forall a, b | 0 <= a < b < |r| ensures r[a] != r[b] {
      assert r[b] == s[b - 1];
      if a > 0 {
        assert r[a] == s[a - 1];
      }
    }
  }

  /** PHP's `array_unique` on a list: keeps the first occurrence of every value,
      in the order of first occurrence. */
  function Dedup<T(==)>(s: seq<T>): (r: seq<T>)
    ensures NoDup(r)
    ensures forall i | 0 <= i < |r| :: r[i] in s
    ensures forall i | 0 <= i < |s| :: s[i] in r
    ensures |r| <= |s|
    decreases |s|
  {
    if |s| == 0 then []
    else
      var d := Dedup(s[..|s| - 1]);
      var x := s[|s| - 1];
      assert forall i | 0 <= i < |s| - 1 :: s[i] == s[..|s| - 1][i];
      if x in d then d else d + [x]
  }

  /** A list without repetitions is left as it is: the first-occurrence order is the list's own order. */
  lemma {:induction false} DedupOfDistinct<T>(s: seq<T>)
    requires NoDup(s)
    ensures Dedup(s) == s
    decreases |s|
  {
    if |s| > 0 {
      var init := s[..|s| - 1];
      assert NoDup(init);
      DedupOfDistinct(init);
      assert s[|s| - 1] !in init;
      assert s == init + [s[|s| - 1]];
    }
  }

  /** `s` is an initial segment of `t`: rows of `s` keep their place in `t`. */
  predicate IsPrefix<T(==)>(s: seq<T>, t: seq<T>) {
    |s| <= |t| && t[..|s|] == s
  }
}
