/**
 Byte counters of in-flight replies and their totals. Each reply handle carries
 a `bytesSent`/`bytesTotal` pair; a handle that never reported progress has no
 stored pair and reads as zero. The aggregate progress of the uploader is the
 sum of these pairs over a set of handles.
 */
module Progress {
  import opened Handles

  datatype Counter = Counter(sent: int, total: int)

  function Plus(a: Counter, b: Counter): Counter {
    Counter(a.sent + b.sent, a.total + b.total)
  }

  /** The stored pair of `h`, zero when `h` never reported progress. */
  function Stored(counters: map<Handle, Counter>, h: Handle): Counter {
    if h in counters then counters[h] else Counter(0, 0)
  }

  /** The sum of the stored pairs over the handles `hs`. */
  ghost function Tally(hs: set<Handle>, counters: map<Handle, Counter>): Counter
    decreases hs
  {
    if hs == {} then Counter(0, 0)
    else
      var k := Least(hs);
      Plus(Stored(counters, k), Tally(hs - {k}, counters))
  }

  /** The sum does not depend on the order of the handles: any one of them can be taken out first. */
  lemma {:induction false} TallyRemove(hs: set<Handle>, counters: map<Handle, Counter>, k: Handle)
    requires k in hs
    ensures Tally(hs, counters) == Plus(Stored(counters, k), Tally(hs - {k}, counters))
    decreases hs
  {
    var m := Least(hs);
    if m != k {
      var rest := hs - {m} - {k};
      assert hs - {m} - {k} == hs - {k} - {m};
      calc {
        Tally(hs, counters);
        Plus(Stored(counters, m), Tally(hs - {m}, counters));
        { TallyRemove(hs - {m}, counters, k); }
        Plus(Stored(counters, m), Plus(Stored(counters, k), Tally(rest, counters)));
        Plus(Stored(counters, k), Plus(Stored(counters, m), Tally(rest, counters)));
        { TallyRemove(hs - {k}, counters, m); }
        Plus(Stored(counters, k), Tally(hs - {k}, counters));
      }
    }
  }

  /** Changing the stored pair of a handle outside the set does not change the sum. */
  lemma {:induction false} TallyFrame(hs: set<Handle>, counters: map<Handle, Counter>, h: Handle, c: Counter)
    requires h !in hs
    ensures Tally(hs, counters[h := c]) == Tally(hs, counters)
    decreases hs
  {
    if hs != {} {
      var k := Least(hs);
      TallyFrame(hs - {k}, counters, h, c);
    }
  }

  /** Handles with no stored pair contribute nothing. */
  lemma {:induction false} TallyUnreported(hs: set<Handle>, counters: map<Handle, Counter>)
    requires forall h :: h in hs ==> h !in counters
    ensures Tally(hs, counters) == Counter(0, 0)
    decreases hs
  {
    if hs != {} {
      var k := Least(hs);
      TallyUnreported(hs - {k}, counters);
    }
  }

  /**
   Two transfers A (50 of 100 bytes) and B (20 of 200 bytes) in flight; A
   reports (60, 100): the aggregate is (80, 300).
   */
  lemma TwoTransfersExample()
    ensures
      var a, b := 1, 2;
      var counters := map[a := Counter(50, 100), b := Counter(20, 200)];
      Plus(Counter(60, 100), Tally({a, b} - {a}, counters)) == Counter(80, 300)
  {
    var counters := map[1 := Counter(50, 100), 2 := Counter(20, 200)];
    assert {1, 2} - {1} == {2};
    TallyRemove({2}, counters, 2);
    assert {2} - {2} == {};
  }

  /**
   The sum the progress loop accumulates while it walks a key list: the stored
   pair of every listed handle except the sender.
   */
  function SumOthers(keys: seq<Handle>, counters: map<Handle, Counter>, sender: Handle): Counter
    decreases |keys|
  {
    if keys == [] then Counter(0, 0)
    else
      var rest := SumOthers(keys[1..], counters, sender);
      if keys[0] == sender then rest else Plus(Stored(counters, keys[0]), rest)
  }

  /** One more step of the walk adds the pair of the next handle, unless it is the sender's. */
  lemma {:induction false} SumOthersAppend(keys: seq<Handle>, k: Handle, counters: map<Handle, Counter>, sender: Handle)
    ensures SumOthers(keys + [k], counters, sender)
         == if k == sender then SumOthers(keys, counters, sender)
            else Plus(Stored(counters, k), SumOthers(keys, counters, sender))
    decreases |keys|
  {
    if keys != [] {
      assert (keys + [k])[1..] == keys[1..] + [k];
      SumOthersAppend(keys[1..], k, counters, sender);
    } else {
      assert ([] + [k])[1..] == [];
    }
  }

  /** Walking the table's key list sums exactly the stored pairs of the handles other than the sender. */
  lemma {:induction false} SumOthersTally(hs: set<Handle>, counters: map<Handle, Counter>, sender: Handle)
    ensures SumOthers(Ascending(hs), counters, sender) == Tally(hs - {sender}, counters)
    decreases hs
  {
    if hs == {} {
      assert hs - {sender} == {};
    } else {
      var m := Least(hs);
      var keys := Ascending(hs);
      assert keys[0] == m && keys[1..] == Ascending(hs - {m});
      var rest := SumOthers(keys[1..], counters, sender);
      SumOthersTally(hs - {m}, counters, sender);
      assert hs - {m} - {sender} == hs - {sender} - {m};
      if m == sender {
        assert hs - {m} - {m} == hs - {m};
      } else {
        TallyRemove(hs - {sender}, counters, m);
      }
    }
  }

  /**
   The walk over the table's keys after the sender stored its fresh pair sums
   the pairs the other handles had stored before.
   */
  lemma WalkSum(hs: set<Handle>, counters: map<Handle, Counter>, sender: Handle, reported: Counter)
    ensures SumOthers(Ascending(hs), counters[sender := reported], sender) == Tally(hs - {sender}, counters)
  {
    SumOthersTally(hs, counters[sender := reported], sender);
    TallyFrame(hs - {sender}, counters, sender, reported);
  }
}
