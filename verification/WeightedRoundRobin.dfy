/** The weighted round robin selector: which server each call picks, over unbounded runs. */
module WeightedRoundRobin {
  import opened Options

  /** The two static variables. */
  datatype Cursor = Cursor(index: int, weight: int)

  const START := Cursor(-1, 0)

  /** What is left of the weight of the current server when the next call begins. */
  function Left(c: Cursor): int {
    if c.weight > 0 then c.weight - 1 else c.weight
  }

  /** The call reads within the list: it moves on to the next server, or the current one is
      still in the list, which may have changed since. */
  predicate Within(ws: seq<int>, c: Cursor) {
    |ws| > 0 && c.index >= -1 && (Left(c) != 0 ==> 0 <= c.index < |ws|)
  }

  /** One call, on servers given by their weights. */
  function Advance(ws: seq<int>, c: Cursor): (d: Cursor)
    requires Within(ws, c)
    ensures 0 <= d.index < |ws|
  {
    if Left(c) == 0 then
      var next := (c.index + 1) % |ws|;
      Cursor(next, ws[next])
    else Cursor(c.index, Left(c))
  }

  /** The static variables after calls on these lists, if none read outside its list. */
  function Along(lists: seq<seq<int>>): Option<Cursor> {
    if lists == [] then Some(START)
    else
      var last := |lists| - 1;
      match Along(lists[..last])
      case Some(c) => if Within(lists[last], c) then Some(Advance(lists[last], c)) else None
      case None => None
  }

  /** The static variables after `k` calls on one list. */
  function After(ws: seq<int>, k: nat): (c: Cursor)
    requires |ws| > 0
    ensures if k == 0 then c == START else 0 <= c.index < |ws|
  {
    if k == 0 then START else Advance(ws, After(ws, k - 1))
  }

  /** The server that call `k` picks, counting from zero. */
  function Pick(ws: seq<int>, k: nat): (i: nat)
    requires |ws| > 0
    ensures i < |ws|
  {
    After(ws, k + 1).index
  }

  /** The same list, `k` times. */
  function Same(ws: seq<int>, k: nat): seq<seq<int>> {
    seq(k, _ => ws)
  }

  lemma {:induction false} OneList(ws: seq<int>, k: nat)
    requires |ws| > 0
    ensures Along(Same(ws, k)) == Some(After(ws, k))
  {
    if k == 0 {
      assert Same(ws, 0) == [];
    } else {
      OneList(ws, k - 1);
      assert Same(ws, k)[..k - 1] == Same(ws, k - 1);
    }
  }

  lemma AlongNext(lists: seq<seq<int>>, ws: seq<int>, c: Cursor)
    requires Along(lists) == Some(c) && Within(ws, c)
    ensures Along(lists + [ws]) == Some(Advance(ws, c))
  {
    assert (lists + [ws])[..|lists|] == lists;
  }

  lemma SamePick(lists: seq<seq<int>>, ws: seq<int>)
    requires |ws| > 0
    ensures lists == Same(ws, |lists|) ==>
      Along(lists + [ws]).Some? && Along(lists + [ws]).value.index == Pick(ws, |lists|)
  {
    assert Same(ws, |lists|) + [ws] == Same(ws, |lists| + 1);
    OneList(ws, |lists| + 1);
  }

  /** On lists that never shrink, whatever their weights, no call reads outside its list. */
  lemma {:induction false} NeverOutside(lists: seq<seq<int>>)
    requires forall k :: 0 <= k < |lists| ==> |lists[k]| > 0
    requires forall k :: 0 < k < |lists| ==> |lists[k - 1]| <= |lists[k]|
    ensures Along(lists).Some?
    ensures if lists == [] then Along(lists) == Some(START) else 0 <= Along(lists).value.index < |lists[|lists| - 1]|
  {
    if lists == [] {
    } else {
      NeverOutside(lists[..|lists| - 1]);
    }
  }

  /** A class with the selector's state and its one operation. */
  class Selector {
    var currentIndex: int
    var weight: int
    ghost var lists: seq<seq<int>>

    ghost predicate Valid()
      reads this
    {
      Along(lists) == Some(Cursor(currentIndex, weight))
    }

    constructor ()
      ensures Valid() && lists == []
    {
      currentIndex, weight, lists := -1, 0, [];
    }

    /** selectServer, on the list of the moment. */
    method SelectServer(ws: seq<int>) returns (server: nat)
      requires Valid() && Within(ws, Cursor(currentIndex, weight))
      modifies this
      ensures Valid() && lists == old(lists) + [ws]
      ensures server == currentIndex < |ws|
      ensures old(lists) == Same(ws, |old(lists)|) ==> server == Pick(ws, |old(lists)|)
    {
      AlongNext(lists, ws, Cursor(currentIndex, weight));
      SamePick(lists, ws);
      lists := lists + [ws];
      if weight > 0 {
        weight := weight - 1;
      }
      if weight == 0 {
        currentIndex := (currentIndex + 1) % |ws|;
        weight := ws[currentIndex];
      }
      server := currentIndex;
    }
  }

  // ---------- Where a call lands ----------

  /** How many calls in a row a server gets: its weight, but never less than one. */
  function Share(w: int): nat {
    if w < 1 then 1 else w
  }

  /** The shares of the first `i` servers together. */
  function Shares(ws: seq<int>, i: nat): nat
    requires i <= |ws|
  {
    if i == 0 then 0 else Shares(ws, i - 1) + Share(ws[i - 1])
  }

  function Total(ws: seq<int>): nat {
    Shares(ws, |ws|)
  }

  ghost predicate NoNegative(ws: seq<int>) {
    forall i :: 0 <= i < |ws| ==> ws[i] >= 0
  }

  lemma {:induction false} SharesGrow(ws: seq<int>, i: nat, j: nat)
    requires i <= j <= |ws|
    ensures Shares(ws, i) + (j - i) <= Shares(ws, j)
  {
    if i == j {
    } else {
      SharesGrow(ws, i, j - 1);
    }
  }

  lemma NextSlot(k: nat, m: nat)
    requires m > 0
    ensures (k + 1) % m == if k % m == m - 1 then 0 else k % m + 1
  {
    var q, r := k / m, k % m;
    if r == m - 1 {
      assert k + 1 == q * m + m == (q + 1) * m + 0;
      ModUnique(k + 1, m, q + 1, 0);
    } else {
      ModUnique(k + 1, m, q, r + 1);
    }
  }

  lemma ModUnique(a: nat, m: nat, q: nat, r: nat)
    requires m > 0 && a == q * m + r && r < m
    ensures a % m == r
  {
    var q0, r0 := a / m, a % m;
    assert a == q0 * m + r0;
    if q0 > q {
      Apart(q, q0, m);
    } else if q0 < q {
      Apart(q0, q, m);
    }
  }

  lemma {:induction false} Apart(q: nat, p: nat, m: nat)
    requires q < p
    ensures q * m + m <= p * m
  {
    if q + 1 < p {
      Apart(q, p - 1, m);
    }
  }

  lemma AddMod(a: nat, m: nat)
    requires m > 0
    ensures (a + m) % m == a % m
  {
    var q, r := a / m, a % m;
    assert a + m == q * m + r + m == (q + 1) * m + r;
    ModUnique(a + m, m, q + 1, r);
  }

  /** The variables stand at offset `o` of server `i`'s share. */
  ghost predicate Stands(ws: seq<int>, c: Cursor, slot: nat) {
    && 0 <= c.index < |ws| && Shares(ws, c.index) <= slot < Shares(ws, c.index) + Share(ws[c.index])
    && c.weight == ws[c.index] - (slot - Shares(ws, c.index))
  }

  lemma Wrap(i: nat, n: nat)
    requires i < n
    ensures (i + 1) % n == if i + 1 == n then 0 else i + 1
  {
  }

  /** The next call stays within the share, or begins the next server's. */
  lemma StandsNext(ws: seq<int>, c: Cursor, slot: nat)
    requires |ws| > 0 && Stands(ws, c, slot) && ws[c.index] >= 0
    ensures slot + 1 < Shares(ws, c.index + 1) ==> Stands(ws, Advance(ws, c), slot + 1)
    ensures slot + 1 == Shares(ws, c.index + 1) ==>
      var next := if c.index + 1 == |ws| then 0 else c.index + 1; Advance(ws, c) == Cursor(next, ws[next])
  {
    Wrap(c.index, |ws|);
  }

  lemma FirstCall(ws: seq<int>)
    requires |ws| > 0
    ensures After(ws, 1) == Cursor(0, ws[0])
  {
    assert After(ws, 1) == Advance(ws, START);
    ModUnique(0, |ws|, 0, 0);
  }

  /** Call `k` picks the server whose interval of shares contains k modulo the total. */
  lemma {:induction false} PickInterval(ws: seq<int>, k: nat)
    requires |ws| > 0 && NoNegative(ws)
    ensures Total(ws) > 0 && Stands(ws, After(ws, k + 1), k % Total(ws))
    ensures Shares(ws, Pick(ws, k)) <= k % Total(ws) < Shares(ws, Pick(ws, k) + 1)
  {
    SharesGrow(ws, 0, |ws|);
    if k == 0 {
      FirstCall(ws);
      ModUnique(0, Total(ws), 0, 0);
    } else {
      var c := After(ws, k);
      PickInterval(ws, k - 1);
      NextSlot(k - 1, Total(ws));
      StandsNext(ws, c, (k - 1) % Total(ws));
      SharesGrow(ws, c.index + 1, |ws|);
    }
  }

  /** The index of the first negative weight; their number if there is none. */
  function FirstNegative(ws: seq<int>): (i: nat)
    ensures i <= |ws| && (i < |ws| ==> ws[i] < 0)
    ensures forall j :: 0 <= j < i ==> ws[j] >= 0
  {
    if ws == [] || ws[0] < 0 then 0 else 1 + FirstNegative(ws[1..])
  }

  /** Up to the first server of negative weight the intervals are filled as usual; that server
      then keeps all later calls. */
  ghost predicate Captures(ws: seq<int>, c: Cursor, k: nat)
    requires FirstNegative(ws) < |ws|
  {
    var i := FirstNegative(ws);
    if k < Shares(ws, i) then Stands(ws, c, k) && c.index < i else c.index == i && c.weight < 0
  }

  lemma CapturesFirst(ws: seq<int>)
    requires FirstNegative(ws) < |ws|
    ensures Captures(ws, Cursor(0, ws[0]), 0)
  {
    SharesGrow(ws, 0, FirstNegative(ws));
  }

  lemma CapturesNext(ws: seq<int>, c: Cursor, k: nat)
    requires FirstNegative(ws) < |ws| && Captures(ws, c, k)
    ensures Within(ws, c) && Captures(ws, Advance(ws, c), k + 1)
  {
    if k < Shares(ws, FirstNegative(ws)) {
      FillsNext(ws, c, k, FirstNegative(ws));
    }
  }

  lemma FillsNext(ws: seq<int>, c: Cursor, k: nat, i: nat)
    requires i < |ws| && Stands(ws, c, k) && c.index < i && ws[c.index] >= 0
    ensures var d := Advance(ws, c);
      if k + 1 < Shares(ws, i) then Stands(ws, d, k + 1) && d.index < i else d == Cursor(i, ws[i])
  {
    StandsNext(ws, c, k);
    SharesGrow(ws, c.index + 1, i);
    if k + 1 == Shares(ws, c.index + 1) && c.index + 1 < i {
      SharesGrow(ws, c.index + 2, i);
    }
  }

  lemma {:induction false} Captured(ws: seq<int>, k: nat)
    requires FirstNegative(ws) < |ws|
    ensures Captures(ws, After(ws, k + 1), k)
  {
    if k == 0 {
      FirstCall(ws);
      CapturesFirst(ws);
    } else {
      Captured(ws, k - 1);
      CapturesNext(ws, After(ws, k), k - 1);
    }
  }

  /** Which server call `k` picks, for any weights at all. */
  lemma {:induction false} PickAt(ws: seq<int>, k: nat)
    requires |ws| > 0
    ensures var i, p := FirstNegative(ws), Pick(ws, k);
      if i == |ws| then Shares(ws, p) <= k % Total(ws) < Shares(ws, p + 1)
      else if k < Shares(ws, i) then p < i && Shares(ws, p) <= k < Shares(ws, p + 1)
      else p == i
  {
    if FirstNegative(ws) == |ws| {
      PickInterval(ws, k);
    } else {
      Captured(ws, k);
    }
  }

  /** That server is determined: the intervals do not overlap. */
  lemma IntervalUnique(ws: seq<int>, slot: nat, i: nat, j: nat)
    requires i < |ws| && j < |ws|
    requires Shares(ws, i) <= slot < Shares(ws, i + 1) && Shares(ws, j) <= slot < Shares(ws, j + 1)
    ensures i == j
  {
    if i < j {
      SharesGrow(ws, i + 1, j);
    } else if j < i {
      SharesGrow(ws, j + 1, i);
    }
  }

  // ---------- A list that changes ----------

  /** The share of the server that call `k - 1` picked goes on with call `k`. */
  predicate Lasts(ws: seq<int>, k: nat)
    requires |ws| > 0 && k > 0
  {
    var i, p := FirstNegative(ws), Pick(ws, k - 1);
    if i == |ws| then Total(ws) > 0 && (k - 1) % Total(ws) + 1 < Shares(ws, p + 1)
    else k - 1 < Shares(ws, i) ==> k < Shares(ws, p + 1)
  }

  lemma LastsIff(ws: seq<int>, k: nat)
    requires |ws| > 0 && k > 0
    ensures Left(After(ws, k)) != 0 <==> Lasts(ws, k)
  {
    if FirstNegative(ws) == |ws| {
      PickInterval(ws, k - 1);
    } else {
      Captured(ws, k - 1);
    }
  }

  /** After `k` calls on one list, a call on another reads past its end exactly if that list ends
      before the server picked last and the share of this server lasts. */
  lemma ShrunkIff(ws: seq<int>, k: nat, us: seq<int>)
    requires |ws| > 0 && |us| > 0 && k > 0
    ensures Along(Same(ws, k) + [us]) == None <==> Pick(ws, k - 1) >= |us| && Lasts(ws, k)
  {
    OneList(ws, k);
    LastsIff(ws, k);
    assert (Same(ws, k) + [us])[..k] == Same(ws, k);
  }

  /** The shortest such history. */
  lemma Outside()
    ensures Along([[1, 2], [1, 2], [1]]) == None
  {
    var lists := [[1, 2], [1, 2], [1]];
    assert lists[..2] == [[1, 2], [1, 2]] && lists[..2][..1] == [[1, 2]];
    assert Along([[1, 2]]) == Some(Cursor(0, 1));
    assert Along(lists[..2]) == Some(Cursor(1, 2));
  }

  // ---------- Windows ----------

  /** How often server `i` is picked by the `n` calls from call `k` on. */
  function Picks(ws: seq<int>, k: nat, n: nat, i: nat): nat
    requires |ws| > 0
  {
    if n == 0 then 0 else Picks(ws, k, n - 1, i) + if Pick(ws, k + n - 1) == i then 1 else 0
  }

  /** The first calls, up to call `n`, fill the intervals in order. */
  lemma {:induction false} FirstWindow(ws: seq<int>, n: nat, i: nat)
    requires |ws| > 0 && NoNegative(ws) && i < |ws| && n <= Total(ws)
    ensures Picks(ws, 0, n, i) ==
            if n <= Shares(ws, i) then 0 else if n < Shares(ws, i + 1) then n - Shares(ws, i) else Share(ws[i])
  {
    if n == 0 {
    } else {
      FirstWindow(ws, n - 1, i);
      PickInterval(ws, n - 1);
      ModUnique(n - 1, Total(ws), 0, n - 1);
      if Shares(ws, i) <= n - 1 < Shares(ws, i + 1) {
        IntervalUnique(ws, n - 1, i, Pick(ws, n - 1));
      }
    }
  }

  lemma Periodic(ws: seq<int>, k: nat)
    requires |ws| > 0 && NoNegative(ws)
    ensures Total(ws) > 0 && Pick(ws, k + Total(ws)) == Pick(ws, k)
  {
    var m := Total(ws);
    PickInterval(ws, k);
    PickInterval(ws, k + m);
    AddMod(k, m);
    IntervalUnique(ws, k % m, Pick(ws, k), Pick(ws, k + m));
  }

  lemma {:induction false} PicksShift(ws: seq<int>, k: nat, n: nat, i: nat)
    requires |ws| > 0
    ensures Picks(ws, k, n + 1, i) == Picks(ws, k + 1, n, i) + if Pick(ws, k) == i then 1 else 0
  {
    if n == 0 {
    } else {
      PicksShift(ws, k, n - 1, i);
    }
  }

  /** Every window of one total, wherever it starts, picks each server exactly its share. */
  lemma {:induction false} Window(ws: seq<int>, k: nat, i: nat)
    requires |ws| > 0 && NoNegative(ws) && i < |ws|
    ensures Picks(ws, k, Total(ws), i) == Share(ws[i])
  {
    if k == 0 {
      FirstWindow(ws, Total(ws), i);
      SharesGrow(ws, i + 1, |ws|);
    } else {
      Window(ws, k - 1, i);
      PicksShift(ws, k - 1, Total(ws), i);
      Periodic(ws, k - 1);
    }
  }

  /** Windows do so exactly if no weight is negative or there is no choice. */
  lemma WindowIff(ws: seq<int>)
    requires |ws| > 0
    ensures (forall k: nat, i: nat :: i < |ws| ==> Picks(ws, k, Total(ws), i) == Share(ws[i]))
            <==> NoNegative(ws) || |ws| == 1
  {
    if NoNegative(ws) {
      forall k: nat, i: nat | i < |ws| ensures Picks(ws, k, Total(ws), i) == Share(ws[i]) {
        Window(ws, k, i);
      }
    } else if |ws| == 1 {
      forall k: nat, i: nat | i < |ws| ensures Picks(ws, k, Total(ws), i) == Share(ws[i]) {
        assert Shares(ws, 1) == Shares(ws, 0) + Share(ws[0]) == 1;
        assert Picks(ws, k, 1, i) == Picks(ws, k, 0, i) + 1;
      }
    } else {
      var j := Neglected(ws);
      var k := Shares(ws, FirstNegative(ws));
      NoPicks(ws, k, Total(ws), j);
      assert Picks(ws, k, Total(ws), j) != Share(ws[j]);
    }
  }

  /** With a negative weight among several, some server is never picked again. */
  lemma Neglected(ws: seq<int>) returns (j: nat)
    requires |ws| > 1 && !NoNegative(ws)
    ensures FirstNegative(ws) < |ws| && j < |ws|
    ensures forall k :: k >= Shares(ws, FirstNegative(ws)) ==> Pick(ws, k) != j
  {
    var i := FirstNegative(ws);
    j := if i == 0 then 1 else 0;
    forall k: nat | k >= Shares(ws, i) ensures Pick(ws, k) != j {
      Captured(ws, k);
    }
  }

  lemma {:induction false} NoPicks(ws: seq<int>, k: nat, n: nat, j: nat)
    requires |ws| > 0 && forall m: nat :: m >= k ==> Pick(ws, m) != j
    ensures Picks(ws, k, n, j) == 0
  {
    if n == 0 {
    } else {
      NoPicks(ws, k, n - 1, j);
    }
  }

  /** Server `i` is picked by some call from call `k` on. */
  ghost predicate PickedFrom(ws: seq<int>, k: nat, i: nat)
    requires |ws| > 0
  {
    exists m: nat :: m >= k && Pick(ws, m) == i
  }

  lemma PickedAgain(ws: seq<int>, k: nat, i: nat)
    requires NoNegative(ws) && i < |ws|
    ensures PickedFrom(ws, k, i)
  {
    SharesGrow(ws, 0, |ws|);
    SharesGrow(ws, i + 1, |ws|);
    var t, slot := Total(ws), Shares(ws, i);
    var m := k * t + slot;
    Multiple(k, t);
    ModUnique(m, t, k, slot);
    PickInterval(ws, m);
    IntervalUnique(ws, slot, i, Pick(ws, m));
  }

  lemma {:induction false} Multiple(k: nat, t: nat)
    requires t > 0
    ensures k * t >= k
  {
    if k == 0 {
    } else {
      Multiple(k - 1, t);
      assert k * t == (k - 1) * t + t;
    }
  }

  /** Every server is picked again and again exactly if no weight is negative or there is only
      one server. */
  lemma NobodyStarvesIff(ws: seq<int>)
    requires |ws| > 0
    ensures (forall k: nat, i: nat :: i < |ws| ==> PickedFrom(ws, k, i)) <==> NoNegative(ws) || |ws| == 1
  {
    if NoNegative(ws) {
      forall k: nat, i: nat | i < |ws| ensures PickedFrom(ws, k, i) {
        PickedAgain(ws, k, i);
      }
    } else if |ws| == 1 {
      forall k: nat, i: nat | i < |ws| ensures PickedFrom(ws, k, i) {
        assert Pick(ws, k) == i;
      }
    } else {
      var j := Neglected(ws);
      assert !PickedFrom(ws, Shares(ws, FirstNegative(ws)), j);
    }
  }

  /** Windows of `m` calls give every server exactly its weight, wherever they start. */
  ghost predicate Fair(ws: seq<int>, m: nat)
    requires |ws| > 0
  {
    forall k: nat, i: nat :: i < |ws| ==> Picks(ws, k, m, i) == ws[i]
  }

  /** Some window length is fair exactly if all weights are at least one. */
  lemma FairIff(ws: seq<int>)
    requires |ws| > 0
    ensures (exists m: nat :: m > 0 && Fair(ws, m)) <==> forall i :: 0 <= i < |ws| ==> ws[i] >= 1
  {
    if forall i :: 0 <= i < |ws| ==> ws[i] >= 1 {
      SharesGrow(ws, 0, |ws|);
      forall k: nat, i: nat | i < |ws| ensures Picks(ws, k, Total(ws), i) == ws[i] {
        Window(ws, k, i);
      }
      assert Fair(ws, Total(ws));
    } else {
      forall m: nat | m > 0 && Fair(ws, m) ensures false {
        NotFair(ws, m);
      }
    }
  }

  /** A weight of zero still gets its server picked once in every round. */
  lemma NotFair(ws: seq<int>, m: nat)
    requires |ws| > 0 && m > 0 && Fair(ws, m)
    ensures forall i :: 0 <= i < |ws| ==> ws[i] >= 1
  {
    forall i: nat | i < |ws| ensures ws[i] >= 0 {
      assert Picks(ws, 0, m, i) == ws[i];
    }
    forall i: nat | i < |ws| ensures ws[i] >= 1 {
      var k := Shares(ws, i);
      SharesGrow(ws, i + 1, |ws|);
      PickInterval(ws, k);
      ModUnique(k, Total(ws), 0, k);
      IntervalUnique(ws, k, i, Pick(ws, k));
      PicksShift(ws, k, m - 1, i);
      assert Picks(ws, k, m, i) == ws[i];
    }
  }

  /** Once a server of negative weight is picked, it is picked for ever. */
  lemma NegativeCaptures(ws: seq<int>, k: nat, n: nat)
    requires |ws| > 0 && ws[Pick(ws, k)] < 0
    ensures Pick(ws, k) == FirstNegative(ws) == Pick(ws, k + n)
  {
    PickAt(ws, k);
    PickAt(ws, k + n);
  }
}
