/** `std::map` and `std::set` are visited in ascending key order: the least key of
    a finite set of addresses, and the whole ascending enumeration. */
module OrderedKeys {

  lemma Pick<T>(s: set<T>) returns (x: T)
    requires s != {}
    ensures x in s
  {
    x :| x in s;
  }

  predicate IsLeast(p: int, keys: set<int>) {
    p in keys && forall k | k in keys :: p <= k
  }

  lemma {:induction false} LeastExists(keys: set<int>)
    requires keys != {}
    ensures exists p :: IsLeast(p, keys)
  {
    var k := Pick(keys);
    var rest := keys - {k};
    assert forall x | x in keys :: x == k || x in rest;
    if rest == {} {
      assert IsLeast(k, keys);
    } else {
      LeastExists(rest);
      var p :| IsLeast(p, rest);
      assert IsLeast(if k < p then k else p, keys);
    }
  }

  /** `begin()->first`. */
  function Least(keys: set<int>): (p: int)
    requires keys != {}
    ensures IsLeast(p, keys)
  {
    LeastExists(keys);
    assert forall p, q | IsLeast(p, keys) && IsLeast(q, keys) :: p == q;
    var p :| IsLeast(p, keys);
    p
  }

  /** The order in which an iterator from `begin()` to `end()` meets the keys. */
  ghost predicate IsAscending(s: seq<int>, keys: set<int>) {
    && (forall k :: k in s <==> k in keys)
    && (forall i, j | 0 <= i < j < |s| :: s[i] < s[j])
  }

  lemma AscendingIn(s: seq<int>, keys: set<int>)
    requires IsAscending(s, keys)
    ensures forall i | 0 <= i < |s| :: s[i] in keys
  {
    forall i | 0 <= i < |s| ensures s[i] in keys {
      assert s[i] in s;
    }
  }

  method Enumerate(keys: set<int>) returns (s: seq<int>)
    ensures IsAscending(s, keys)
  {
    var rest := keys;
    s := [];
    while rest != {}
      invariant rest <= keys && IsAscending(s, keys - rest)
      invariant forall k, i | k in rest && 0 <= i < |s| :: s[i] < k
      decreases |rest|
    {
      var k := Least(rest);
      assert |rest - {k}| == |rest| - 1;
      s := s + [k];
      rest := rest - {k};
    }
    assert keys - rest == keys;
  }

  lemma {:induction false} AscendingCard(s: seq<int>, keys: set<int>)
    requires IsAscending(s, keys)
    ensures |s| == |keys|
  {
    if s == [] {
      if keys != {} {
        var k := Pick(keys);
        assert false;
      }
    } else {
      var n := |s| - 1;
      assert s[n] in s;
      WithoutLast(s, keys);
      AscendingCard(s[..n], keys - {s[n]});
    }
  }

  lemma WithoutLast(s: seq<int>, keys: set<int>)
    requires IsAscending(s, keys) && s != []
    ensures IsAscending(s[..|s| - 1], keys - {s[|s| - 1]})
  {
    var n := |s| - 1;
    forall k ensures k in s[..n] <==> k in keys - {s[n]} {
      if k in keys && k != s[n] {
        assert k in s;
        var i :| 0 <= i < |s| && s[i] == k;
        assert s[..n][i] == k;
      }
    }
  }

  lemma SubsetCard<T>(a: set<T>, b: set<T>)
    requires a <= b
    ensures |a| <= |b|
  {
    assert |b| == |a| + |b - a|;
  }
}
