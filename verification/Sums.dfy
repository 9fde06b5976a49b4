/** Sums of sequences, and sums over the keys of a table of counts or rates in any order. */
module Sums {
  import opened Tables

  predicate Distinct(s: seq<nat>) {
    forall i, j :: 0 <= i < j < |s| ==> s[i] != s[j]
  }

  function Sum(s: seq<nat>): nat {
    if s == [] then 0 else Sum(s[..|s| - 1]) + s[|s| - 1]
  }

  lemma {:induction false} SumBump(s: seq<nat>, at: nat, amount: nat)
    requires at < |s|
    ensures Sum(s[at := s[at] + amount]) == Sum(s) + amount
  {
    var n, s' := |s| - 1, s[at := s[at] + amount];
    if at == n {
      assert s'[..n] == s[..n];
    } else {
      SumBump(s[..n], at, amount);
      assert s'[..n] == s[..n][at := s[at] + amount];
    }
  }

  lemma {:induction false} SumZero(s: seq<nat>)
    requires forall i :: 0 <= i < |s| ==> s[i] == 0
    ensures Sum(s) == 0
  {
    if s != [] {
      SumZero(s[..|s| - 1]);
    }
  }

  lemma {:induction false} EntryWithinSum(s: seq<nat>, i: nat)
    requires i < |s|
    ensures s[i] <= Sum(s)
  {
    if i < |s| - 1 {
      EntryWithinSum(s[..|s| - 1], i);
    }
  }

  ghost function SetSum<K(!new)>(keys: set<K>, m: map<K, nat>): nat {
    if keys == {} then 0
    else
      var k :| k in keys;
      Get(m, k) + SetSum(keys - {k}, m)
  }

  lemma {:induction false} SetSumRemove<K(!new)>(keys: set<K>, m: map<K, nat>, x: K)
    requires x in keys
    ensures SetSum(keys, m) == Get(m, x) + SetSum(keys - {x}, m)
    decreases |keys|
  {
    var k :| k in keys && SetSum(keys, m) == Get(m, k) + SetSum(keys - {k}, m);
    if k != x {
      SetSumRemove(keys - {k}, m, x);
      SetSumRemove(keys - {x}, m, k);
      assert keys - {k} - {x} == keys - {x} - {k};
    }
  }

  method SumOver<K(==, !new)>(keys: set<K>, m: map<K, nat>) returns (n: nat)
    ensures n == SetSum(keys, m)
  {
    n := 0;
    var rest := keys;
    while rest != {}
      invariant rest <= keys && n + SetSum(rest, m) == SetSum(keys, m)
      decreases rest
    {
      var k :| k in rest;
      SetSumRemove(rest, m, k);
      n := n + Get(m, k);
      rest := rest - {k};
    }
  }

  lemma {:induction false} SetSumAgree<K(!new)>(keys: set<K>, m: map<K, nat>, n: map<K, nat>)
    requires forall k :: k in keys ==> Get(m, k) == Get(n, k)
    ensures SetSum(keys, m) == SetSum(keys, n)
    decreases |keys|
  {
    if keys != {} {
      var k :| k in keys;
      SetSumRemove(keys, m, k);
      SetSumRemove(keys, n, k);
      SetSumAgree(keys - {k}, m, n);
    }
  }

  lemma {:induction false} AllOnes<K(!new)>(keys: set<K>, m: map<K, nat>)
    requires forall k :: k in keys ==> Get(m, k) == 1
    ensures SetSum(keys, m) == |keys|
    decreases |keys|
  {
    if keys != {} {
      var k :| k in keys;
      SetSumRemove(keys, m, k);
      AllOnes(keys - {k}, m);
    }
  }

  lemma {:induction false} SetSumSplit<K(!new)>(keys: set<K>, part: set<K>, m: map<K, nat>)
    requires part <= keys
    ensures SetSum(keys, m) == SetSum(part, m) + SetSum(keys - part, m)
    decreases |part|
  {
    if part == {} {
      assert keys - part == keys;
    } else {
      var k :| k in part;
      SetSumRemove(keys, m, k);
      SetSumRemove(part, m, k);
      SetSumSplit(keys - {k}, part - {k}, m);
      assert (keys - {k}) - (part - {k}) == keys - part;
    }
  }

  lemma {:induction false} AtLeastTwo<K(!new)>(keys: set<K>, m: map<K, nat>)
    requires forall k :: k in keys ==> Get(m, k) >= 2
    ensures SetSum(keys, m) >= 2 * |keys|
    decreases |keys|
  {
    if keys != {} {
      var k :| k in keys;
      SetSumRemove(keys, m, k);
      AtLeastTwo(keys - {k}, m);
    }
  }

  // ---- sums of rates ----

  function GetReal<K>(m: map<K, real>, k: K): real {
    if k in m then m[k] else 0.0
  }

  ghost function RealSum<K(!new)>(keys: set<K>, m: map<K, real>): real {
    if keys == {} then 0.0
    else
      var k :| k in keys;
      GetReal(m, k) + RealSum(keys - {k}, m)
  }

  lemma {:induction false} RealSumRemove<K(!new)>(keys: set<K>, m: map<K, real>, x: K)
    requires x in keys
    ensures RealSum(keys, m) == GetReal(m, x) + RealSum(keys - {x}, m)
    decreases |keys|
  {
    var k :| k in keys && RealSum(keys, m) == GetReal(m, k) + RealSum(keys - {k}, m);
    if k != x {
      RealSumRemove(keys - {k}, m, x);
      RealSumRemove(keys - {x}, m, k);
      assert keys - {k} - {x} == keys - {x} - {k};
    }
  }

  lemma RealSumAdd<K(!new)>(keys: set<K>, m: map<K, real>, x: K)
    requires x !in keys
    ensures RealSum(keys + {x}, m) == RealSum(keys, m) + GetReal(m, x)
  {
    RealSumRemove(keys + {x}, m, x);
    assert keys + {x} - {x} == keys;
  }

  lemma {:induction false} RealSumAgree<K(!new)>(keys: set<K>, m: map<K, real>, n: map<K, real>)
    requires forall k :: k in keys ==> GetReal(m, k) == GetReal(n, k)
    ensures RealSum(keys, m) == RealSum(keys, n)
    decreases |keys|
  {
    if keys != {} {
      var k :| k in keys;
      RealSumRemove(keys, m, k);
      RealSumRemove(keys, n, k);
      RealSumAgree(keys - {k}, m, n);
    }
  }

  /** Changing one entry changes the sum by the difference. */
  lemma RealSumUpdate<K(!new)>(m: map<K, real>, k: K, v: real)
    ensures RealSum(m[k := v].Keys, m[k := v]) == RealSum(m.Keys, m) - GetReal(m, k) + v
  {
    var n := m[k := v];
    RealSumRemove(n.Keys, n, k);
    RealSumAgree(n.Keys - {k}, n, m);
    if k in m {
      RealSumRemove(m.Keys, m, k);
      assert n.Keys - {k} == m.Keys - {k};
    } else {
      assert n.Keys - {k} == m.Keys;
    }
  }
}
