/** `re.findall` as a chain of searches, independent of the pattern: a
    search from a position yields the next match or nothing, and `findall`
    resumes each search where the previous match ended. */
module Scan {
  import opened Wrappers

  /** `ms` is what repeated searching yields from `from` on: the first
      search's match, then the chain from where that match ends, until a
      search finds nothing. */
  ghost predicate Chain<M>(search: nat -> Option<M>, endOf: M -> nat, from: nat, ms: seq<M>)
    decreases |ms|
  {
    match search(from)
    case None => ms == []
    case Some(m) => |ms| > 0 && ms[0] == m && Chain(search, endOf, endOf(m), ms[1..])
  }

  /** Each match after the first is what the search from the end of the
      one before it yields. */
  lemma {:induction false} ChainNext<M>(search: nat -> Option<M>, endOf: M -> nat, from: nat, ms: seq<M>, k: nat)
    requires Chain(search, endOf, from, ms) && k + 1 < |ms|
    ensures search(endOf(ms[k])) == Some(ms[k + 1])
    decreases k
  {
    var m := search(from).value;
    if k == 0 {
      assert ms[1..][0] == ms[1];
    } else {
      ChainNext(search, endOf, endOf(m), ms[1..], k - 1);
      assert ms[1..][k - 1] == ms[k] && ms[1..][k] == ms[k + 1];
    }
  }

  /** The search from the end of the last match finds nothing. */
  lemma {:induction false} ChainLast<M>(search: nat -> Option<M>, endOf: M -> nat, from: nat, ms: seq<M>)
    requires Chain(search, endOf, from, ms) && |ms| > 0
    ensures search(endOf(ms[|ms| - 1])).None?
    decreases |ms|
  {
    var m := search(from).value;
    var rest := ms[1..];
    if |rest| == 0 {
      assert ms[|ms| - 1] == m;
    } else {
      ChainLast(search, endOf, endOf(m), rest);
      assert rest[|rest| - 1] == ms[|ms| - 1];
    }
  }
}
