/** Text in byte order, and the sorted lists that ordered maps and sorting give. */
module Ordering {
  predicate Distinct(names: seq<string>) {
    forall i, j :: 0 <= i < j < |names| ==> names[i] != names[j]
  }

  predicate AtMost(a: string, b: string) {
    a == "" || (b != "" && (a[0] < b[0] || (a[0] == b[0] && AtMost(a[1..], b[1..]))))
  }

  lemma {:induction false} AtMostIsTotal(a: string, b: string)
    ensures AtMost(a, b) || AtMost(b, a)
    ensures AtMost(a, b) && AtMost(b, a) ==> a == b
  {
    if a != "" && b != "" && a[0] == b[0] {
      AtMostIsTotal(a[1..], b[1..]);
      assert a == [a[0]] + a[1..] && b == [b[0]] + b[1..];
    }
  }

  lemma {:induction false} AtMostChains(a: string, b: string, c: string)
    requires AtMost(a, b) && AtMost(b, c)
    ensures AtMost(a, c)
  {
    if a != "" && a[0] == b[0] == c[0] { AtMostChains(a[1..], b[1..], c[1..]); }
  }

  ghost predicate IsLeast(k: string, keys: set<string>) {
    k in keys && forall other :: other in keys ==> AtMost(k, other)
  }

  lemma {:induction false} LeastExists(keys: set<string>) returns (k: string)
    requires keys != {}
    ensures IsLeast(k, keys)
  {
    k :| k in keys;
    AtMostIsTotal(k, k);
    if keys != {k} {
      var rest := LeastExists(keys - {k});
      AtMostIsTotal(k, rest);
      if !AtMost(k, rest) {
        k := rest;
      } else {
        forall other | other in keys ensures AtMost(k, other) {
          if other != k { AtMostChains(k, rest, other); }
        }
      }
    }
  }

  /** The keys in increasing order. */
  ghost function SortedKeys(keys: set<string>): seq<string>
    decreases |keys|
  {
    if keys == {} then []
    else
      ghost var least := Least(keys);
      [least] + SortedKeys(keys - {least})
  }

  ghost function Least(keys: set<string>): (k: string)
    requires keys != {}
    ensures IsLeast(k, keys)
  {
    assert exists k :: IsLeast(k, keys) by { var k := LeastExists(keys); }
    var k :| IsLeast(k, keys);
    k
  }

  lemma {:induction false} SortedKeysHold(keys: set<string>)
    ensures forall k :: k in SortedKeys(keys) <==> k in keys
    ensures Distinct(SortedKeys(keys))
    decreases |keys|
  {
    if keys != {} { SortedKeysHold(keys - {Least(keys)}); }
  }

  lemma LeastIsUnique(k: string, keys: set<string>)
    requires IsLeast(k, keys)
    ensures k == Least(keys)
  {
    AtMostIsTotal(k, Least(keys));
  }

  method NextKey(left: set<string>) returns (k: string)
    requires left != {}
    ensures k in left && k == Least(left)
  {
    ghost var least := LeastExists(left);
    k :| k in left && forall other :: other in left ==> AtMost(k, other);
    LeastIsUnique(k, left);
  }

  /** A sorted list is increasing. */
  lemma {:induction false} SortedKeysIncrease(keys: set<string>, i: nat, j: nat)
    requires i <= j < |SortedKeys(keys)|
    ensures AtMost(SortedKeys(keys)[i], SortedKeys(keys)[j])
    decreases |keys|
  {
    var least := Least(keys);
    SortedKeysHold(keys);
    assert SortedKeys(keys)[j] in keys;
    if i > 0 { SortedKeysIncrease(keys - {least}, i - 1, j - 1); }
  }

  /** `sort` and then `dedup`. */
  method SortAll(keys: set<string>) returns (sorted: seq<string>)
    ensures sorted == SortedKeys(keys)
  {
    sorted := [];
    var left := keys;
    while left != {}
      invariant left <= keys
      invariant sorted + SortedKeys(left) == SortedKeys(keys)
      decreases |left|
    {
      var k := NextKey(left);
      assert sorted + SortedKeys(left) == sorted + [k] + SortedKeys(left - {k});
      sorted := sorted + [k];
      left := left - {k};
    }
    assert sorted + [] == sorted;
  }
}
