/**
 The in-flight table of the uploader maps reply handles to file names. The
 table is an ordered map keyed by the reply object's identity, so its key list
 and "the first key with a given value" follow ascending handle order. This
 module gives that order: the least handle of a set, the ascending key list
 (the table's `keys()`), and the first key holding a value (the table's `key(v)`).
 */
module Handles {

  /** Identity of one network reply object (the transport's opaque handle). */
  type Handle = nat

  datatype Option<T> = None | Some(value: T)

  /** The least handle of `hs` that is at least `n`; `bound` is one such handle. */
  function LeastFrom(hs: set<Handle>, n: Handle, ghost bound: Handle): (k: Handle)
    requires bound in hs && n <= bound
    ensures k in hs && n <= k
    ensures forall j :: j in hs && n <= j ==> k <= j
    decreases bound - n
  {
    if n in hs then n else LeastFrom(hs, n + 1, bound)
  }

  /** The least handle of a non-empty set. */
  function Least(hs: set<Handle>): (k: Handle)
    requires hs != {}
    ensures k in hs
    ensures forall j :: j in hs ==> k <= j
  {
    var bound :| bound in hs;
    LeastFrom(hs, 0, bound)
  }

  /** The handles of a set listed in ascending order: the table's key list. */
  function Ascending(hs: set<Handle>): seq<Handle>
    decreases hs
  {
    if hs == {} then []
    else
      var k := Least(hs);
      [k] + Ascending(hs - {k})
  }

  /** The key list holds every handle of the set once, in strictly ascending order. */
  lemma {:induction false} AscendingSpec(hs: set<Handle>)
    ensures var ks := Ascending(hs);
      && |ks| == |hs|
      && (forall k :: k in ks <==> k in hs)
      && (forall i, j :: 0 <= i < j < |ks| ==> ks[i] < ks[j])
    decreases hs
  {
    if hs != {} {
      var k := Least(hs);
      var rest := Ascending(hs - {k});
      AscendingSpec(hs - {k});
      assert Ascending(hs) == [k] + rest;
      forall i, j | 0 <= i < j < |[k] + rest| ensures ([k] + rest)[i] < ([k] + rest)[j] {
        if i > 0 {
          assert ([k] + rest)[i] == rest[i - 1] && ([k] + rest)[j] == rest[j - 1];
        } else {
          assert ([k] + rest)[j] == rest[j - 1] && rest[j - 1] in hs - {k};
        }
      }
    }
  }

  /**
   The first key (in table order) whose value is `name`, or None when no entry
   holds `name`; this is the lookup by value that `cancel` performs.
   */
  function KeyOf(files: map<Handle, string>, name: string): (r: Option<Handle>)
    ensures r.None? <==> name !in files.Values
    ensures r.Some? ==> r.value in files && files[r.value] == name
    ensures r.Some? ==> forall h :: h in files && files[h] == name ==> r.value <= h
  {
    var hs := set h | h in files && files[h] == name;
    assert forall h :: h in files && files[h] == name ==> h in hs;
    if hs == {} then None else Some(Least(hs))
  }
}
