/** StringUtils::split: cutting a string at every occurrence of a delimiter. */
module StringSplit {
  import opened Options

  /** The delimiter occurs in `s` at position `j`. */
  predicate MatchAt(s: string, d: string, j: nat) {
    j + |d| <= |s| && s[j..j + |d|] == d
  }

  ghost predicate Absent(s: string, d: string) {
    forall j: nat :: !MatchAt(s, d, j)
  }

  /** What std::string::find answers: the first occurrence at or after `from`. */
  ghost predicate IsFirst(s: string, d: string, from: nat, r: Option<nat>) {
    match r
    case None => forall j :: from <= j ==> !MatchAt(s, d, j)
    case Some(p) => from <= p && MatchAt(s, d, p) && forall j :: from <= j < p ==> !MatchAt(s, d, j)
  }

  method Find(s: string, d: string, from: nat) returns (r: Option<nat>)
    ensures IsFirst(s, d, from, r)
  {
    var j := from;
    while j + |d| <= |s|
      invariant from <= j && forall i :: from <= i < j ==> !MatchAt(s, d, i)
    {
      if s[j..j + |d|] == d {
        return Some(j);
      }
      j := j + 1;
    }
    r := None;
  }

  /** The tokens with the delimiter between them. */
  function Join(ts: seq<string>, d: string): string {
    if ts == [] then "" else if |ts| == 1 then ts[0] else ts[0] + d + Join(ts[1..], d)
  }

  /** In each token but the last, followed by the delimiter, the delimiter first occurs at the
      token's end; in the last token it does not occur at all. */
  ghost predicate IsSplit(ts: seq<string>, d: string) {
    && ts != []
    && (forall i, j :: 0 <= i < |ts| - 1 && 0 <= j < |ts[i]| ==> !MatchAt(ts[i] + d, d, j))
    && Absent(ts[|ts| - 1], d)
  }

  lemma {:induction false} JoinLast(ts: seq<string>, x: string, y: string, d: string)
    ensures Join(ts + [x, y], d) == Join(ts + [x + d + y], d)
  {
    if ts == [] {
      assert [x, y][1..] == [y];
    } else {
      JoinLast(ts[1..], x, y, d);
      assert (ts + [x, y])[1..] == ts[1..] + [x, y];
      assert (ts + [x + d + y])[1..] == ts[1..] + [x + d + y];
    }
  }

  /** An occurrence that ends inside a piece of `s` is one of the piece, and conversely. */
  lemma MatchShift(s: string, d: string, a: nat, b: nat, j: nat)
    requires a <= b <= |s| && a + j + |d| <= b
    ensures MatchAt(s[a..b], d, j) <==> MatchAt(s, d, a + j)
  {
    var l, r := s[a..b][j..j + |d|], s[a + j..a + j + |d|];
    assert forall i :: 0 <= i < |d| ==> l[i] == r[i];
    assert l == r;
  }

  // ---------- The loop ----------

  /** The variables of the loop: where the rest of the string starts, and the tokens so far. */
  datatype Progress = Progress(start: nat, res: seq<string>)

  /** One turn of the loop makes `b` of `a`. */
  ghost predicate Turn(s: string, d: string, a: Progress, b: Progress) {
    exists end: nat :: IsFirst(s, d, a.start, Some(end)) && b == Progress(end + |d|, a.res + [s[a.start..end]])
  }

  /** The loop goes through the states `t`, from its start on. */
  ghost predicate Runs(s: string, d: string, t: seq<Progress>) {
    && t != [] && t[0] == Progress(0, [])
    && forall i :: 0 <= i < |t| - 1 ==> Turn(s, d, t[i], t[i + 1])
  }

  /** The tokens cut so far and the rest make up the string, and the tokens are right. */
  ghost predicate Cutting(s: string, d: string, a: Progress) {
    && a.start <= |s| && Join(a.res + [s[a.start..]], d) == s
    && forall i, j :: 0 <= i < |a.res| && 0 <= j < |a.res[i]| ==> !MatchAt(a.res[i] + d, d, j)
  }

  lemma TurnKeeps(s: string, d: string, a: Progress, end: nat)
    requires Cutting(s, d, a) && IsFirst(s, d, a.start, Some(end))
    ensures Cutting(s, d, Progress(end + |d|, a.res + [s[a.start..end]]))
  {
    var token, rest := s[a.start..end], s[end + |d|..];
    NextToken(s, d, a.start, end);
    JoinLast(a.res, token, rest, d);
    assert a.res + [token, rest] == (a.res + [token]) + [rest];
  }

  lemma CutAll(s: string, d: string, a: Progress)
    requires Cutting(s, d, a) && IsFirst(s, d, a.start, None)
    ensures Join(a.res + [s[a.start..]], d) == s && IsSplit(a.res + [s[a.start..]], d)
  {
    forall j: nat ensures !MatchAt(s[a.start..], d, j) {
      if a.start + j + |d| <= |s| {
        MatchShift(s, d, a.start, |s|, j);
      }
    }
  }

  /** split, for a non-empty delimiter; `trace` are the states its loop goes through. */
  method Split(s: string, delimiter: string) returns (res: seq<string>, ghost trace: seq<Progress>)
    requires delimiter != ""
    ensures Join(res, delimiter) == s && IsSplit(res, delimiter)
    ensures Runs(s, delimiter, trace)
    ensures var a := trace[|trace| - 1]; a.start <= |s| && IsFirst(s, delimiter, a.start, None) && res == a.res + [s[a.start..]]
  {
    var start := 0;
    res := [];
    trace := [Progress(0, [])];
    var end := Find(s, delimiter, start);
    assert s[0..] == s;
    while end.Some?
      invariant IsFirst(s, delimiter, start, end) && Cutting(s, delimiter, Progress(start, res))
      invariant Runs(s, delimiter, trace) && trace[|trace| - 1] == Progress(start, res)
      decreases |s| - start
    {
      var token := s[start..end.value];
      TurnKeeps(s, delimiter, Progress(start, res), end.value);
      start := end.value + |delimiter|;
      res := res + [token];
      trace := trace + [Progress(start, res)];
      end := Find(s, delimiter, start);
    }
    CutAll(s, delimiter, Progress(start, res));
    res := res + [s[start..]];
  }

  lemma NextToken(s: string, d: string, start: nat, end: nat)
    requires start <= |s| && IsFirst(s, d, start, Some(end))
    ensures s[start..] == s[start..end] + d + s[end + |d|..]
    ensures forall j :: 0 <= j < end - start ==> !MatchAt(s[start..end] + d, d, j)
  {
    assert s[start..end] + d == s[start..end + |d|];
    forall j | 0 <= j < end - start ensures !MatchAt(s[start..end] + d, d, j) {
      if j + |d| <= end + |d| - start {
        MatchShift(s, d, start, end + |d|, j);
      }
    }
  }

  /** The end of the first token of a longer split is where the delimiter first occurs. */
  lemma FirstToken(ts: seq<string>, d: string)
    requires IsSplit(ts, d) && |ts| > 1
    ensures IsFirst(Join(ts, d), d, 0, Some(|ts[0]|))
  {
    var s, t := Join(ts, d), ts[0];
    assert s[..|t| + |d|] == t + d;
    assert s[|t|..|t| + |d|] == d;
    forall j | 0 <= j < |t| ensures !MatchAt(s, d, j) {
      assert !MatchAt(ts[0] + d, d, j);
      MatchShift(s, d, 0, |t| + |d|, j);
    }
  }

  /** A string has one such list of tokens only. */
  lemma {:induction false} Unique(a: seq<string>, b: seq<string>, d: string)
    requires IsSplit(a, d) && IsSplit(b, d) && Join(a, d) == Join(b, d)
    ensures a == b
    decreases |a|
  {
    if |a| > 1 { FirstToken(a, d); }
    if |b| > 1 { FirstToken(b, d); }
    if |a| == 1 || |b| == 1 {
      assert Absent(a[|a| - 1], d) && Absent(b[|b| - 1], d);
    } else {
      var s := Join(a, d);
      assert |a[0]| == |b[0]|;
      assert a[0] == s[..|a[0]|] == b[0];
      assert Join(a[1..], d) == s[|a[0]| + |d|..] == Join(b[1..], d);
      SplitTail(a, d);
      SplitTail(b, d);
      Unique(a[1..], b[1..], d);
      assert a == [a[0]] + a[1..] && b == [b[0]] + b[1..];
    }
  }

  lemma SplitTail(ts: seq<string>, d: string)
    requires IsSplit(ts, d) && |ts| > 1
    ensures IsSplit(ts[1..], d)
  {
    forall i, j | 0 <= i < |ts[1..]| - 1 && 0 <= j < |ts[1..][i]| ensures !MatchAt(ts[1..][i] + d, d, j) {
      assert !MatchAt(ts[i + 1] + d, d, j);
    }
  }

  // ---------- When the loop ends ----------

  /** No run of the loop has more than `n` states. */
  ghost predicate AtMost(s: string, d: string, n: nat) {
    forall t :: Runs(s, d, t) ==> |t| <= n
  }

  /** A turn gets on exactly if the delimiter is not empty. */
  lemma ProgressIff(s: string, d: string, start: nat, end: nat)
    requires start <= |s| && IsFirst(s, d, start, Some(end))
    ensures end + |d| > start <==> d != ""
  {
    if d == "" {
      assert MatchAt(s, d, start);
    }
  }

  /** With a delimiter every turn gets on by at least one character. */
  lemma {:induction false} GetsOn(s: string, d: string, t: seq<Progress>)
    requires d != "" && Runs(s, d, t)
    ensures |t| - 1 <= t[|t| - 1].start <= |s|
    decreases |t|
  {
    if |t| == 1 {
      assert t[0].start == 0;
    } else {
      var u := t[..|t| - 1];
      GetsOn(s, d, u);
      assert Turn(s, d, t[|t| - 2], t[|t| - 1]);
      var end: nat :| IsFirst(s, d, u[|u| - 1].start, Some(end)) && t[|t| - 1].start == end + |d|;
      ProgressIff(s, d, u[|u| - 1].start, end);
    }
  }

  /** What the loop cuts off without a delimiter: `k` times nothing. */
  function Blanks(k: nat): seq<string> {
    seq(k, _ => "")
  }

  /** Without a delimiter it finds the start of the string again and again. */
  lemma {:induction false} Stuck(s: string, t: seq<Progress>)
    requires Runs(s, "", t)
    ensures t[|t| - 1] == Progress(0, Blanks(|t| - 1))
    decreases |t|
  {
    if |t| == 1 {
      assert Blanks(0) == [];
    } else {
      var u, n := t[..|t| - 1], |t| - 1;
      Stuck(s, u);
      assert Turn(s, "", t[n - 1], t[n]);
      assert MatchAt(s, "", 0) && s[0..0] == "";
      assert Blanks(n - 1) + [""] == Blanks(n);
    }
  }

  /** And there is such a run of every length: each state has a next one. */
  lemma Spins(s: string, n: nat) returns (t: seq<Progress>)
    ensures |t| == n + 1 && Runs(s, "", t)
  {
    t := seq(n + 1, k requires 0 <= k => Progress(0, Blanks(k)));
    forall i | 0 <= i < n ensures Turn(s, "", t[i], t[i + 1]) {
      assert MatchAt(s, "", 0) && IsFirst(s, "", 0, Some(0));
      assert Blanks(i + 1) == Blanks(i) + [s[0..0]];
    }
    assert Blanks(0) == [];
  }

  /** The loop ends, for whatever string, exactly if the delimiter is not empty. */
  lemma EndsIff(s: string, d: string)
    ensures (exists n: nat :: AtMost(s, d, n)) <==> d != ""
  {
    if d != "" {
      forall t | Runs(s, d, t) ensures |t| <= |s| + 1 {
        GetsOn(s, d, t);
      }
      assert AtMost(s, d, |s| + 1);
    } else {
      forall n: nat | AtMost(s, d, n) ensures false {
        var t := Spins(s, n);
      }
    }
  }
}
