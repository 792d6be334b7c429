/** Sequences in key order, whatever their members are, and the sets of keys they stand for. */
module KeyOrder {
  import opened Options
  import S = SortedSet

  ghost predicate Ordered<N>(s: seq<N>, key: N -> int) {
    forall i, j :: 0 <= i < j < |s| ==> key(s[i]) < key(s[j])
  }

  ghost function KeysOf<N>(s: seq<N>, key: N -> int): set<int> {
    set i | 0 <= i < |s| :: key(s[i])
  }

  lemma KeyAt<N>(s: seq<N>, key: N -> int, k: int)
    ensures k in KeysOf(s, key) <==> exists x :: x in s && key(x) == k
  {
    if x :| x in s && key(x) == k {
      var i :| 0 <= i < |s| && s[i] == x;
      assert key(s[i]) == k;
    }
  }

  /** The key is one of the set exactly if one of these nodes has it. */
  lemma FoundKey<N>(s: seq<N>, nodes: set<N>, key: N -> int, k: int, found: bool)
    requires forall x :: x in s <==> x in nodes
    requires found <==> exists x :: x in nodes && key(x) == k
    ensures k in KeysOf(s, key) <==> found
  {
    KeyAt(s, key, k);
  }

  /** The node with the least key from `k` on answers for the set, and so does having none. */
  lemma NearestKey<N>(s: seq<N>, nodes: set<N>, key: N -> int, k: int, near: Option<N>)
    requires forall x :: x in s <==> x in nodes
    requires near.None? ==> forall x :: x in nodes ==> key(x) < k
    requires near.Some? ==>
      && near.value in nodes && key(near.value) >= k
      && forall x :: x in nodes && key(x) >= k ==> key(x) >= key(near.value)
    ensures S.LeastFrom(KeysOf(s, key), k, if near.None? then None else Some(key(near.value)))
  {
    if near.Some? {
      KeyAt(s, key, key(near.value));
    }
    forall m | m in KeysOf(s, key) ensures exists x :: x in nodes && key(x) == m {
      KeyAt(s, key, m);
    }
  }

  lemma KeysInserted<N>(s: seq<N>, at: nat, x: N, key: N -> int)
    requires at <= |s|
    ensures KeysOf(s[..at] + [x] + s[at..], key) == KeysOf(s, key) + {key(x)}
  {
    var t := s[..at] + [x] + s[at..];
    forall k ensures k in KeysOf(t, key) <==> k in KeysOf(s, key) + {key(x)} {
      KeyAt(s, key, k);
      KeyAt(t, key, k);
      assert forall y :: y in t <==> y in s[..at] + s[at..] || y == x;
      assert s[..at] + s[at..] == s;
    }
  }

  lemma KeysRemoved<N>(s: seq<N>, at: nat, key: N -> int)
    requires at < |s| && Ordered(s, key)
    ensures KeysOf(s[..at] + s[at + 1..], key) == KeysOf(s, key) - {key(s[at])}
  {
    var t := s[..at] + s[at + 1..];
    forall i | 0 <= i < |t| ensures key(t[i]) in KeysOf(s, key) - {key(s[at])} {
      assert t[i] == s[if i < at then i else i + 1];
    }
    forall i | 0 <= i < |s| && i != at ensures key(s[i]) in KeysOf(t, key) {
      assert s[i] == t[if i < at then i else i - 1];
    }
  }

  /** The ends of the key order are the least and the greatest key. */
  lemma KeysEnds<N>(s: seq<N>, key: N -> int)
    requires Ordered(s, key)
    ensures S.IsMin(KeysOf(s, key), if s == [] then None else Some(key(s[0])))
    ensures S.IsMax(KeysOf(s, key), if s == [] then None else Some(key(s[|s| - 1])))
  {
  }

  /** Distinct members have distinct keys. */
  lemma {:induction false} KeysCount<N>(s: seq<N>, key: N -> int)
    requires Ordered(s, key)
    ensures |KeysOf(s, key)| == |s|
  {
    if s == [] {
    } else {
      var t, last := s[..|s| - 1], |s| - 1;
      KeysCount(t, key);
      assert key(s[last]) !in KeysOf(t, key);
      assert KeysOf(s, key) == KeysOf(t, key) + {key(s[last])};
    }
  }
}
