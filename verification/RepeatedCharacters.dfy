/**
 Counting repeated characters of a password: an iterator over runs of equal characters, and
 the check that no run is too long.
 */
module RepeatedCharacters {
  import opened Wrappers

  /** `n` equal characters in a row, starting at `i`. */
  ghost predicate RunAt(s: string, i: nat, n: nat) {
    i + n <= |s| && forall j :: i <= j < i + n ==> s[j] == s[i]
  }

  ghost predicate HasRun(s: string, n: nat) {
    exists i :: 0 <= i < |s| && RunAt(s, i, n)
  }

  class SequentialCount {
    /** What the inner iterator has not yet returned. */
    var rest: string

    constructor (s: string)
      ensures rest == s
    {
      rest := s;
    }

    /** The next run: as long as possible, and what follows is left in the iterator. */
    method Next() returns (r: Option<(char, nat)>)
      modifies this
      ensures r.None? <==> old(rest) == ""
      ensures r.None? ==> rest == ""
      ensures r.Some? ==>
                var (head, count) := r.value;
                && 1 <= count <= |old(rest)| && rest == old(rest)[count..]
                && (forall j :: 0 <= j < count ==> old(rest)[j] == head)
                && (rest != "" ==> rest[0] != head)
    {
      if rest == "" {
        return None;
      }
      var head := rest[0];
      rest := rest[1..];
      var count := 1;
      while rest != "" && rest[0] == head
        invariant 1 <= count <= |old(rest)| && rest == old(rest)[count..]
        invariant forall j :: 0 <= j < count ==> old(rest)[j] == head
        decreases |rest|
      {
        rest := rest[1..];
        count := count + 1;
      }
      return Some((head, count));
    }
  }

  /** Acceptable exactly if no character is repeated `limit` times in a row; with limit 0 only the
      empty text is. */
  method IsAcceptableInputOnRepeatedCharacters(entry: string, limit: nat) returns (ok: bool)
    ensures ok <==> !HasRun(entry, if limit == 0 then 1 else limit)
  {
    var iter := new SequentialCount(entry);
    ghost var n := if limit == 0 then 1 else limit;
    ghost var pos := 0;
    while true
      invariant 0 <= pos <= |entry| && iter.rest == entry[pos..]
      invariant forall i :: 0 <= i < pos ==> !RunAt(entry, i, n)
      decreases |iter.rest|
    {
      var run := iter.Next();
      if run.None? {
        return true;
      }
      var (head, count) := run.value;
      assert forall j :: pos <= j < pos + count ==> entry[j] == head by {
        assert forall j :: 0 <= j < count ==> entry[pos..][j] == entry[pos + j];
      }
      if count >= limit {
        assert RunAt(entry, pos, n);
        return false;
      }
      forall i | pos <= i < pos + count ensures !RunAt(entry, i, n) {
        if i + n <= |entry| {
          assert i <= pos + count < i + n && entry[pos + count] != head;
        }
      }
      pos := pos + count;
    }
  }
}
