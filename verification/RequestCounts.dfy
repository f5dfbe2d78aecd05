/** Facts about counting, dropping and finding requests, and about counting flags. */
module RequestCounts {
  import opened DownloadState

  lemma {:induction false} CountConcat(a: seq<BlockRequest>, b: seq<BlockRequest>, sel: Selector)
    ensures Count(a + b, sel) == Count(a, sel) + Count(b, sel)
  {
    if b == [] {
      assert a + b == a;
    } else {
      assert (a + b)[..|a + b| - 1] == a + b[..|b| - 1];
      CountConcat(a, b[..|b| - 1], sel);
    }
  }

  lemma CountAppend(q: seq<BlockRequest>, r: BlockRequest, sel: Selector)
    ensures Count(q + [r], sel) == Count(q, sel) + if sel.Hits(r) then 1 else 0
  {
    assert (q + [r])[..|q|] == q;
  }

  lemma CountRemoveAt(q: seq<BlockRequest>, k: nat, sel: Selector)
    requires k < |q|
    ensures Count(q, sel) == Count(RemoveAt(q, k), sel) + if sel.Hits(q[k]) then 1 else 0
  {
    assert q == q[..k] + [q[k]] + q[k + 1..];
    CountAppend(q[..k], q[k], sel);
    CountConcat(q[..k] + [q[k]], q[k + 1..], sel);
    CountConcat(q[..k], q[k + 1..], sel);
  }

  /** A count is positive exactly when some request is hit. */
  lemma {:induction false} CountPositive(q: seq<BlockRequest>, sel: Selector)
    ensures Count(q, sel) > 0 <==> exists i :: 0 <= i < |q| && sel.Hits(q[i])
  {
    if q != [] {
      var init := q[..|q| - 1];
      CountPositive(init, sel);
      if exists i :: 0 <= i < |q| && sel.Hits(q[i]) {
        var i :| 0 <= i < |q| && sel.Hits(q[i]);
        assert i < |q| - 1 ==> init[i] == q[i];
      }
      if Count(init, sel) > 0 {
        var i :| 0 <= i < |init| && sel.Hits(init[i]);
        assert q[i] == init[i];
      }
    }
  }

  lemma {:induction false} WithoutMembers(q: seq<BlockRequest>, sel: Selector, r: BlockRequest)
    ensures r in Without(q, sel) <==> r in q && !sel.Hits(r)
  {
    if q != [] {
      WithoutMembers(q[..|q| - 1], sel, r);
      assert q == q[..|q| - 1] + [q[|q| - 1]];
    }
  }

  /** Dropping leaves every request that is not hit as often as it was there. */
  lemma {:induction false} WithoutMultiset(q: seq<BlockRequest>, sel: Selector, r: BlockRequest)
    ensures multiset(Without(q, sel))[r] == if sel.Hits(r) then 0 else multiset(q)[r]
  {
    if q != [] {
      var init, last := q[..|q| - 1], q[|q| - 1];
      WithoutMultiset(init, sel, r);
      assert q == init + [last];
    }
  }

  lemma RemoveAtMultiset(q: seq<BlockRequest>, k: nat)
    requires k < |q|
    ensures multiset(RemoveAt(q, k)) == multiset(q) - multiset{q[k]}
  {
    assert q == q[..k] + [q[k]] + q[k + 1..];
  }

  /** Dropping what `sel` hits takes away exactly the requests that both selectors hit. */
  lemma {:induction false} CountWithout(q: seq<BlockRequest>, sel: Selector, k: Selector)
    ensures Count(Without(q, sel), k) <= Count(q, k)
    ensures Count(Without(q, sel), k) == Count(q, k)
            <==> forall i | 0 <= i < |q| :: k.Hits(q[i]) ==> !sel.Hits(q[i])
  {
    if q != [] {
      var init, last := q[..|q| - 1], q[|q| - 1];
      CountWithout(init, sel, k);
      if sel.Hits(last) {
        assert Without(q, sel) == Without(init, sel);
      } else {
        CountAppend(Without(init, sel), last, k);
      }
      assert forall i | 0 <= i < |init| :: init[i] == q[i];
    }
  }

  lemma {:induction false} WithoutAll(q: seq<BlockRequest>, sel: Selector)
    requires forall r | r in q :: sel.Hits(r)
    ensures Without(q, sel) == []
  {
    if q != [] {
      assert q[|q| - 1] in q;
      WithoutAll(q[..|q| - 1], sel);
    }
  }

  // ----- Flags

  ghost function CountTrue(flags: seq<bool>): nat {
    if flags == [] then 0
    else CountTrue(flags[..|flags| - 1]) + if flags[|flags| - 1] then 1 else 0
  }

  lemma {:induction false} CountTrueSet(flags: seq<bool>, i: nat)
    requires i < |flags| && !flags[i]
    ensures CountTrue(flags[i := true]) == CountTrue(flags) + 1
  {
    var n := |flags| - 1;
    if i < n {
      CountTrueSet(flags[..n], i);
      assert flags[i := true][..n] == flags[..n][i := true];
    } else {
      assert flags[i := true][..n] == flags[..n];
    }
  }

  /** A count is full exactly when every flag is set, and zero when none is. */
  lemma {:induction false} CountTrueBounds(flags: seq<bool>)
    ensures CountTrue(flags) <= |flags|
    ensures CountTrue(flags) == |flags| <==> forall i | 0 <= i < |flags| :: flags[i]
    ensures CountTrue(flags) == 0 <==> forall i | 0 <= i < |flags| :: !flags[i]
  {
    if flags != [] {
      var init := flags[..|flags| - 1];
      CountTrueBounds(init);
      assert forall i | 0 <= i < |init| :: init[i] == flags[i];
    }
  }
}
