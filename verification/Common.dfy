/** What several of the models need. */
module Common {

  datatype Option<+T> = None | Some(value: T)

  /** A condition as a count. */
  function One(b: bool): (n: nat) {
    if b then 1 else 0
  }

  predicate Distinct<T(==)>(s: seq<T>) {
    forall i, j | 0 <= i < j < |s| :: s[i] != s[j]
  }

  /** Leaving out one position of a sequence without repetitions removes exactly that element. */
  lemma RemoveAt<T>(s: seq<T>, k: nat)
    requires Distinct(s) && k < |s|
    ensures var rest := s[..k] + s[k + 1..];
      && Distinct(rest) && (forall x :: x in rest <==> x in s && x != s[k])
      && forall i | 0 <= i < |rest| :: rest[i] == if i < k then s[i] else s[i + 1]
  {
    var rest := s[..k] + s[k + 1..];
    assert s == s[..k] + [s[k]] + s[k + 1..];
    assert forall i | 0 <= i < |rest| :: rest[i] == if i < k then s[i] else s[i + 1];
  }
}
