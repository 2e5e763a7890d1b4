/** The delete loop that the source, rule, extension and function editors share: it walks an index up
    a slice whose length it reads anew each time, and at a match splices that element out of the very
    slice. The element that slides into the hole is therefore never examined. `Scan` says what is
    left; the lemmas say when that is a filter. */
module SpliceDelete {

  /** Drop a match and keep its successor unexamined. */
  function Scan<T>(s: seq<T>, hit: T -> bool): (r: seq<T>)
  {
    if s == [] then []
    else if !hit(s[0]) then [s[0]] + Scan(s[1..], hit)
    else if |s| == 1 then []
    else [s[1]] + Scan(s[2..], hit)
  }

  /** What a reader would expect a delete to leave: the elements that do not match, in order. */
  function Keep<T>(s: seq<T>, hit: T -> bool): (r: seq<T>)
    ensures forall x <- r :: x in s && !hit(x)
    ensures |r| <= |s|
  {
    if s == [] then []
    else if hit(s[0]) then Keep(s[1..], hit)
    else [s[0]] + Keep(s[1..], hit)
  }

  ghost predicate NoAdjacentHits<T>(s: seq<T>, hit: T -> bool) {
    forall i :: 0 <= i < |s| - 1 ==> !(hit(s[i]) && hit(s[i + 1]))
  }

  /** What the loop ends with when it stands at index i of s: the examined part stays. */
  ghost function Pending<T>(s: seq<T>, i: nat, hit: T -> bool): seq<T> {
    if i >= |s| then s else s[..i] + Scan(s[i..], hit)
  }

  lemma ScanStep<T>(s: seq<T>, i: nat, hit: T -> bool)
    requires i < |s|
    ensures hit(s[i]) ==> Pending(s, i, hit) == Pending(s[..i] + s[i + 1..], i + 1, hit)
    ensures !hit(s[i]) ==> Pending(s, i, hit) == Pending(s, i + 1, hit)
  {
    var d := s[..i] + s[i + 1..];
    assert s[i..][0] == s[i] && s[i..][1..] == s[i + 1..];
    if hit(s[i]) {
      if i < |d| {
        assert d[..i + 1] == s[..i] + [s[i + 1]];
        assert s[i..][1] == s[i + 1] && s[i..][2..] == d[i + 1..];
        assert s[..i] + ([s[i + 1]] + Scan(d[i + 1..], hit)) == d[..i + 1] + Scan(d[i + 1..], hit);
        assert i + 1 == |d| ==> d[i + 1..] == [] && d[..i + 1] == d;
      }
    } else {
      assert s[..i] + ([s[i]] + Scan(s[i + 1..], hit)) == s[..i + 1] + Scan(s[i + 1..], hit);
      assert i + 1 == |s| ==> s[i + 1..] == [] && s[..i + 1] == s;
    }
  }

  /** A Go slice header over its backing array. */
  class Slice<T> {
    var data: array<T>
    var len: nat

    ghost predicate Valid()
      reads this
    {
      len <= data.Length
    }

    ghost function Contents(): (s: seq<T>)
      reads this, data
      requires Valid()
    {
      data[..len]
    }

    constructor Of(s: seq<T>)
      ensures Valid() && fresh(data) && Contents() == s
    {
      data, len := new T[|s|](i requires 0 <= i < |s| => s[i]), |s|;
    }

    /** `append(s[:i], s[i+1:]...)`: the tail is copied one place down in the same array. */
    method RemoveAt(i: nat)
      requires Valid() && i < len
      modifies this`len, data
      ensures Valid() && data == old(data)
      ensures Contents() == old(Contents())[..i] + old(Contents())[i + 1..]
    {
      var j := i;
      while j + 1 < len
        invariant len == old(len) && data == old(data)
        invariant i <= j < len
        invariant forall k :: 0 <= k < i ==> data[k] == old(data[k])
        invariant forall k :: i <= k < j ==> data[k] == old(data[k + 1])
        invariant forall k :: j <= k < len ==> data[k] == old(data[k])
      {
        data[j] := data[j + 1];
        j := j + 1;
      }
      len := len - 1;
    }

    method DeleteMatching(hit: T -> bool)
      requires Valid()
      modifies this`len, data
      ensures Valid() && data == old(data)
      ensures Contents() == Scan(old(Contents()), hit)
    {
      var i := 0;
      while i < len
        invariant Valid() && data == old(data) && i <= len + 1
        invariant Pending(Contents(), i, hit) == Scan(old(Contents()), hit)
        decreases len + 1 - i
      {
        ScanStep(Contents(), i, hit);
        if hit(data[i]) {
          RemoveAt(i);
        }
        i := i + 1;
      }
    }
  }

  /** The loop is an order-preserving filter exactly when no two neighbours match. */
  lemma {:induction false} ScanIsKeep<T>(s: seq<T>, hit: T -> bool)
    ensures Scan(s, hit) == Keep(s, hit) <==> NoAdjacentHits(s, hit)
  {
    if s == [] {
    } else if !hit(s[0]) {
      ScanIsKeep(s[1..], hit);
      assert NoAdjacentHits(s, hit) <==> NoAdjacentHits(s[1..], hit) by {
        Shift(s, hit, 1);
      }
      assert Keep(s, hit)[1..] == Keep(s[1..], hit) && Scan(s, hit)[1..] == Scan(s[1..], hit);
    } else if |s| == 1 {
    } else if hit(s[1]) {
      assert Scan(s, hit)[0] == s[1];
    } else {
      ScanIsKeep(s[2..], hit);
      Shift(s, hit, 2);
      assert s[1..][1..] == s[2..];
      assert Keep(s, hit) == [s[1]] + Keep(s[2..], hit);
      assert Keep(s, hit)[1..] == Keep(s[2..], hit) && Scan(s, hit)[1..] == Scan(s[2..], hit);
    }
  }

  lemma Shift<T>(s: seq<T>, hit: T -> bool, k: nat)
    requires 1 <= k <= |s| && !hit(s[k - 1])
    requires k == 2 ==> !hit(s[1])
    requires k <= 2
    ensures NoAdjacentHits(s, hit) <==> NoAdjacentHits(s[k..], hit)
  {
    if NoAdjacentHits(s[k..], hit) {
      forall i | 0 <= i < |s| - 1 ensures !(hit(s[i]) && hit(s[i + 1])) {
        if i >= k {
          assert s[i] == s[k..][i - k] && s[i + 1] == s[k..][i - k + 1];
        }
      }
    }
  }

  /** Unique keys, as every xid-keyed list has, are enough for a true filter. */
  lemma UniqueHitIsKeep<T>(s: seq<T>, hit: T -> bool)
    requires forall i, j :: 0 <= i < j < |s| ==> !(hit(s[i]) && hit(s[j]))
    ensures Scan(s, hit) == Keep(s, hit)
  {
    ScanIsKeep(s, hit);
  }

  /** Whatever the duplicates, nothing but matches is ever lost. */
  lemma {:induction false} NoInnocentLoss<T>(s: seq<T>, hit: T -> bool)
    ensures Keep(Scan(s, hit), hit) == Keep(s, hit)
  {
    if s == [] {
    } else if !hit(s[0]) {
      NoInnocentLoss(s[1..], hit);
      assert Scan(s, hit)[1..] == Scan(s[1..], hit);
    } else if |s| > 1 {
      NoInnocentLoss(s[2..], hit);
      assert Scan(s, hit)[1..] == Scan(s[2..], hit);
      assert s[1..][1..] == s[2..];
    }
  }

  /** Elements at positions 1, 3, 5, ... */
  function EveryOther<T>(s: seq<T>): (r: seq<T>)
    ensures |r| == |s| / 2
    ensures forall i :: 0 <= i < |r| ==> r[i] == s[2 * i + 1]
  {
    if |s| < 2 then [] else [s[1]] + EveryOther(s[2..])
  }

  /** A maximal run of matches met by the scan leaves exactly every other one of them,
      floor(k/2) in all, and the scan goes on behind the run as if it had just arrived. */
  lemma {:induction false} RunLeavesHalf<T>(run: seq<T>, rest: seq<T>, hit: T -> bool)
    requires forall x <- run :: hit(x)
    requires rest == [] || !hit(rest[0])
    ensures Scan(run + rest, hit) == EveryOther(run) + Scan(rest, hit)
  {
    var s := run + rest;
    if run == [] {
      assert s == rest;
    } else if |run| == 1 {
      assert s[0] == run[0];
      if rest != [] {
        assert s[1] == rest[0] && s[2..] == rest[1..];
      } else {
        assert s == run;
      }
    } else {
      assert s[0] == run[0] && s[1] == run[1] && s[2..] == run[2..] + rest;
      RunLeavesHalf(run[2..], rest, hit);
    }
  }
}
