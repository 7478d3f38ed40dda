/**
 * `get_initial_constants`: the seed windows `c, c + q, ..., c + (L - 1) q`
 * found among the constant keys, one per residue class modulo the step
 * size q.
 */
module Seeds {
  import opened Wrappers
  import opened Syntax
  import opened Numeric
  import opened Plans
  import opened SortedMap
  import Eureka

  predicate StrictlyIncreasing(keys: seq<int>) {
    forall i, j :: 0 <= i < j < |keys| ==> keys[i] < keys[j]
  }

  lemma KeysStrictlyIncreasing(m: BTreeMap)
    ensures StrictlyIncreasing(Keys(m))
  {
  }

  /** The window `c, c + q, ..., c + (len - 1) q`. */
  function Progression(c: int, len: nat, q: nat): (w: seq<int>)
    ensures |w| == len && forall j :: 0 <= j < len ==> w[j] == c + j * q
  {
    seq(len, j requires 0 <= j < len => c + j * q)
  }

  /** Every member of the window starting at c is a constant key. */
  predicate IsFullWindow(keys: seq<int>, c: int, len: nat, q: nat) {
    forall j :: 0 <= j < len ==> c + j * q in keys
  }

  /** The windows the first loop collects, one per qualifying start, in the order of `starts`. */
  function CandidatesFrom(keys: seq<int>, starts: seq<int>, len: nat, q: nat): seq<seq<int>>
    decreases |starts|
  {
    if starts == [] then []
    else
      (if len >= 1 && IsFullWindow(keys, starts[0], len, q) then [Progression(starts[0], len, q)] else []) +
      CandidatesFrom(keys, starts[1..], len, q)
  }

  /** `all_possible`. */
  function Candidates(keys: seq<int>, len: nat, q: nat): seq<seq<int>> {
    CandidatesFrom(keys, keys, len, q)
  }

  /** a and b have the same residue modulo q; `SameClassDivides` shows it is `(a - b) % q == 0`. */
  predicate SameClass(q: nat, a: int, b: int) {
    q > 0 && a % q == b % q
  }

  /** A multiple of q strictly between -q and q is 0. */
  lemma SmallMultipleZero(q: nat, r: int)
    requires -(q as int) < r < q && Dvd(q, r)
    ensures r == 0
  {
    var k := r / q;
    assert r == q * k;
    if k >= 1 {
      assert false;
    } else if k <= -1 {
      assert false;
    }
  }

  lemma SameClassDivides(q: nat, a: int, b: int)
    requires q > 0
    ensures SameClass(q, a, b) <==> Dvd(q, a - b)
  {
    var qa, qb := a / q, b / q;
    var ra, rb := a % q, b % q;
    DvdMultiple(q, qa - qb);
    assert a - b == (ra - rb) + q * (qa - qb);
    if Dvd(q, a - b) {
      DvdCombine(q, a - b, q * (qa - qb), -1);
      SmallMultipleZero(q, ra - rb);
    }
  }

  predicate NonEmptyWindows(ws: seq<seq<int>>) {
    forall i :: 0 <= i < |ws| ==> |ws[i]| > 0
  }

  /** Some earlier window's first element shares the class of window i's first element. */
  predicate HasEarlier(ws: seq<seq<int>>, q: nat, i: nat)
    requires NonEmptyWindows(ws) && i < |ws|
  {
    exists j :: 0 <= j < i && SameClass(q, ws[j][0], ws[i][0])
  }

  /** The first m windows, less those that share a class with an earlier window. */
  function KeepFirstUpTo(ws: seq<seq<int>>, q: nat, m: nat): (r: seq<seq<int>>)
    requires NonEmptyWindows(ws) && m <= |ws|
    ensures NonEmptyWindows(r) && |r| <= m
    decreases m
  {
    if m == 0 then []
    else KeepFirstUpTo(ws, q, m - 1) + (if HasEarlier(ws, q, m - 1) then [] else [ws[m - 1]])
  }

  function KeepFirst(ws: seq<seq<int>>, q: nat): (r: seq<seq<int>>)
    requires NonEmptyWindows(ws)
    ensures NonEmptyWindows(r)
  {
    KeepFirstUpTo(ws, q, |ws|)
  }

  /** The list in reverse order: for the windows, and for the members of one window. */
  function Reversed<T>(s: seq<T>): (r: seq<T>)
    ensures |r| == |s| && forall i :: 0 <= i < |s| ==> r[i] == s[|s| - 1 - i]
  {
    seq(|s|, i requires 0 <= i < |s| => s[|s| - 1 - i])
  }

  function MapReversed(ws: seq<seq<int>>): (r: seq<seq<int>>)
    ensures |r| == |ws| && forall i :: 0 <= i < |ws| ==> r[i] == Reversed(ws[i])
  {
    seq(|ws|, i requires 0 <= i < |ws| => Reversed(ws[i]))
  }

  /** The check at the head of `get_initial_constants`: the tuple, in order, is 1, 2, ..., L. */
  predicate Contiguous(tuple: set<int>) {
    tuple == Eureka.Range(1, |tuple| + 1)
  }

  /**
   * The survivors of `get_initial_constants`: for StepSub the first (lowest)
   * window of each class, for StepAdd the last (highest) window of each
   * class, reversed, visited from the highest start down.
   */
  function Survivors(keys: seq<int>, len: nat, q: nat, op: StepOperator): seq<seq<int>> {
    var cands := Candidates(keys, len, q);
    CandidatesNonEmpty(keys, keys, len, q);
    if op == StepSub then KeepFirst(cands, q) else MapReversed(KeepFirst(Reversed(cands), q))
  }

  /** What `get_initial_constants` returns, with its two aborts. */
  function SeedsFor(constants: BTreeMap, tuple: set<int>, q: nat, op: StepOperator): Result<seq<seq<int>>, Error> {
    if !Contiguous(tuple) then Err(NotContiguous)
    else
      var seeds := Survivors(Keys(constants), |tuple|, q, op);
      if |seeds| == 0 then Err(NoSeedWindow) else Ok(seeds)
  }

  // ---------------------------------------------------------------------------
  // Facts about the candidates

  lemma {:induction false} CandidatesNonEmpty(keys: seq<int>, starts: seq<int>, len: nat, q: nat)
    ensures NonEmptyWindows(CandidatesFrom(keys, starts, len, q))
    ensures forall i :: 0 <= i < |CandidatesFrom(keys, starts, len, q)| ==>
      CandidatesFrom(keys, starts, len, q)[i] == Progression(CandidatesFrom(keys, starts, len, q)[i][0], len, q) &&
      IsFullWindow(keys, CandidatesFrom(keys, starts, len, q)[i][0], len, q)
    decreases |starts|
  {
    if starts != [] {
      CandidatesNonEmpty(keys, starts[1..], len, q);
      var head := if len >= 1 && IsFullWindow(keys, starts[0], len, q) then [Progression(starts[0], len, q)] else [];
      var rest := CandidatesFrom(keys, starts[1..], len, q);
      var all := CandidatesFrom(keys, starts, len, q);
      assert all == head + rest;
      forall i | 0 <= i < |all|
        ensures |all[i]| > 0 && all[i] == Progression(all[i][0], len, q) &&
          IsFullWindow(keys, all[i][0], len, q)
      {
        if i >= |head| {
          assert all[i] == rest[i - |head|];
        }
      }
    }
  }

  /** A start qualifies exactly when its whole window is made of constant keys. */
  lemma {:induction false} CandidatesComplete(keys: seq<int>, starts: seq<int>, len: nat, q: nat, c: int)
    requires c in starts && len >= 1 && IsFullWindow(keys, c, len, q)
    ensures Progression(c, len, q) in CandidatesFrom(keys, starts, len, q)
    decreases |starts|
  {
    if starts[0] != c {
      assert c in starts[1..];
      CandidatesComplete(keys, starts[1..], len, q, c);
    }
  }

  /** Every candidate starts at one of the starts. */
  lemma {:induction false} CandidatesStartIn(keys: seq<int>, starts: seq<int>, len: nat, q: nat)
    ensures NonEmptyWindows(CandidatesFrom(keys, starts, len, q))
    ensures forall i :: 0 <= i < |CandidatesFrom(keys, starts, len, q)| ==>
      CandidatesFrom(keys, starts, len, q)[i][0] in starts
    decreases |starts|
  {
    if starts != [] {
      CandidatesStartIn(keys, starts[1..], len, q);
      var rest := CandidatesFrom(keys, starts[1..], len, q);
      var cs := CandidatesFrom(keys, starts, len, q);
      if len >= 1 && IsFullWindow(keys, starts[0], len, q) {
        assert cs == [Progression(starts[0], len, q)] + rest;
        forall i | 0 <= i < |cs| ensures |cs[i]| > 0 && cs[i][0] in starts {
          if i > 0 {
            assert cs[i] == rest[i - 1];
            assert rest[i - 1][0] in starts[1..];
          }
        }
      } else {
        assert cs == rest;
        forall i | 0 <= i < |cs| ensures cs[i][0] in starts {
          assert rest[i][0] in starts[1..];
        }
      }
    }
  }

  /** Candidates from the later starts all start above the first start. */
  lemma CandidatesAbove(keys: seq<int>, starts: seq<int>, len: nat, q: nat)
    requires StrictlyIncreasing(starts) && starts != []
    ensures NonEmptyWindows(CandidatesFrom(keys, starts[1..], len, q))
    ensures forall j :: 0 <= j < |CandidatesFrom(keys, starts[1..], len, q)| ==>
      starts[0] < CandidatesFrom(keys, starts[1..], len, q)[j][0]
  {
    var tail := starts[1..];
    CandidatesStartIn(keys, tail, len, q);
    var rest := CandidatesFrom(keys, tail, len, q);
    forall j | 0 <= j < |rest| ensures starts[0] < rest[j][0] {
      var k :| 0 <= k < |tail| && tail[k] == rest[j][0];
      assert starts[0] < starts[k + 1];
    }
  }

  /** A window below every later window keeps the first elements strictly increasing. */
  lemma FirstsIncreasingCons(w: seq<int>, rest: seq<seq<int>>)
    requires |w| > 0 && NonEmptyWindows(rest)
    requires forall i, j :: 0 <= i < j < |rest| ==> rest[i][0] < rest[j][0]
    requires forall j :: 0 <= j < |rest| ==> w[0] < rest[j][0]
    ensures NonEmptyWindows([w] + rest)
    ensures forall i, j :: 0 <= i < j < |[w] + rest| ==> ([w] + rest)[i][0] < ([w] + rest)[j][0]
  {
    var cs := [w] + rest;
    forall i, j | 0 <= i < j < |cs| ensures cs[i][0] < cs[j][0] {
      assert cs[j] == rest[j - 1];
      if i > 0 {
        assert cs[i] == rest[i - 1];
      }
    }
    forall i | 0 <= i < |cs| ensures |cs[i]| > 0 {
      if i > 0 {
        assert cs[i] == rest[i - 1];
      }
    }
  }

  /** Strictly increasing starts give windows with strictly increasing first elements. */
  lemma {:induction false} CandidatesIncreasing(keys: seq<int>, starts: seq<int>, len: nat, q: nat)
    requires StrictlyIncreasing(starts)
    ensures NonEmptyWindows(CandidatesFrom(keys, starts, len, q))
    ensures forall i, j :: 0 <= i < j < |CandidatesFrom(keys, starts, len, q)| ==>
      CandidatesFrom(keys, starts, len, q)[i][0] < CandidatesFrom(keys, starts, len, q)[j][0]
    decreases |starts|
  {
    CandidatesStartIn(keys, starts, len, q);
    if starts != [] {
      var tail := starts[1..];
      CandidatesIncreasing(keys, tail, len, q);
      var rest := CandidatesFrom(keys, tail, len, q);
      if len >= 1 && IsFullWindow(keys, starts[0], len, q) {
        var w := Progression(starts[0], len, q);
        assert CandidatesFrom(keys, starts, len, q) == [w] + rest;
        assert w[0] == starts[0];
        CandidatesAbove(keys, starts, len, q);
        FirstsIncreasingCons(w, rest);
      } else {
        assert CandidatesFrom(keys, starts, len, q) == rest;
      }
    }
  }

  // ---------------------------------------------------------------------------
  // Facts about the deduplication

  /** w is one of the first m windows and no earlier window shares its class. */
  predicate FirstOfClass(ws: seq<seq<int>>, q: nat, m: nat, w: seq<int>)
    requires NonEmptyWindows(ws) && m <= |ws|
  {
    exists i :: 0 <= i < m && !HasEarlier(ws, q, i) && w == ws[i]
  }

  /** Survivors among the first m windows are windows with no earlier window of their class. */
  lemma {:induction false} KeepFirstMembers(ws: seq<seq<int>>, q: nat, m: nat)
    requires NonEmptyWindows(ws) && m <= |ws|
    ensures forall k :: 0 <= k < |KeepFirstUpTo(ws, q, m)| ==> FirstOfClass(ws, q, m, KeepFirstUpTo(ws, q, m)[k])
    decreases m
  {
    if m > 0 {
      KeepFirstMembers(ws, q, m - 1);
      var prev := KeepFirstUpTo(ws, q, m - 1);
      var kf := KeepFirstUpTo(ws, q, m);
      assert kf == prev + (if HasEarlier(ws, q, m - 1) then [] else [ws[m - 1]]);
      forall k | 0 <= k < |kf| ensures FirstOfClass(ws, q, m, kf[k]) {
        if k < |prev| {
          assert FirstOfClass(ws, q, m - 1, prev[k]);
          var i :| 0 <= i < m - 1 && !HasEarlier(ws, q, i) && prev[k] == ws[i];
          assert kf[k] == ws[i];
        } else {
          assert !HasEarlier(ws, q, m - 1) && kf[k] == ws[m - 1];
        }
      }
    }
  }

  /** Every one of the first m windows is represented by a survivor of its class that comes no later. */
  lemma {:induction false} KeepFirstCovers(ws: seq<seq<int>>, q: nat, m: nat, i: nat)
    requires NonEmptyWindows(ws) && i < m <= |ws| && q >= 1
    ensures exists k, j ::
      0 <= k < |KeepFirstUpTo(ws, q, m)| && 0 <= j <= i &&
      KeepFirstUpTo(ws, q, m)[k] == ws[j] && SameClass(q, ws[j][0], ws[i][0])
    decreases m
  {
    var prev := KeepFirstUpTo(ws, q, m - 1);
    var kf := KeepFirstUpTo(ws, q, m);
    assert kf == prev + (if HasEarlier(ws, q, m - 1) then [] else [ws[m - 1]]);
    if i < m - 1 {
      KeepFirstCovers(ws, q, m - 1, i);
      var k, j :| 0 <= k < |prev| && 0 <= j <= i && prev[k] == ws[j] && SameClass(q, ws[j][0], ws[i][0]);
      assert kf[k] == ws[j];
    } else if HasEarlier(ws, q, i) {
      var j :| 0 <= j < i && SameClass(q, ws[j][0], ws[i][0]);
      KeepFirstCovers(ws, q, m - 1, j);
      var k, j' :| 0 <= k < |prev| && 0 <= j' <= j && prev[k] == ws[j'] && SameClass(q, ws[j'][0], ws[j][0]);
      assert kf[k] == ws[j'];
      assert ws[j'][0] % q == ws[i][0] % q;
    } else {
      assert kf[|prev|] == ws[i];
      assert SameClass(q, ws[i][0], ws[i][0]);
    }
  }

  /** No two survivors share a residue class. */
  lemma {:induction false} KeepFirstDistinct(ws: seq<seq<int>>, q: nat, m: nat)
    requires NonEmptyWindows(ws) && m <= |ws| && q >= 1
    ensures forall a, b :: 0 <= a < b < |KeepFirstUpTo(ws, q, m)| ==>
      !SameClass(q, KeepFirstUpTo(ws, q, m)[a][0], KeepFirstUpTo(ws, q, m)[b][0])
    decreases m
  {
    if m > 0 {
      KeepFirstDistinct(ws, q, m - 1);
      KeepFirstMembers(ws, q, m - 1);
      var prev := KeepFirstUpTo(ws, q, m - 1);
      var kf := KeepFirstUpTo(ws, q, m);
      forall a, b | 0 <= a < b < |kf| ensures !SameClass(q, kf[a][0], kf[b][0]) {
        if b >= |prev| {
          assert kf == prev + [ws[m - 1]];
          assert kf[b] == ws[m - 1] && !HasEarlier(ws, q, m - 1);
          assert FirstOfClass(ws, q, m - 1, prev[a]);
          var i :| 0 <= i < m - 1 && !HasEarlier(ws, q, i) && prev[a] == ws[i];
          assert kf[a] == ws[i];
          if SameClass(q, kf[a][0], kf[b][0]) {
            assert false;
          }
        } else {
          assert kf[a] == prev[a] && kf[b] == prev[b];
        }
      }
    }
  }

  lemma {:induction false} KeepFirstEmpty(ws: seq<seq<int>>, q: nat, m: nat)
    requires NonEmptyWindows(ws) && m <= |ws|
    ensures |KeepFirstUpTo(ws, q, m)| == 0 <==> m == 0
    decreases m
  {
    if m > 1 {
      KeepFirstEmpty(ws, q, m - 1);
    } else if m == 1 {
      assert !HasEarlier(ws, q, 0);
    }
  }

  // ---------------------------------------------------------------------------
  // The loops

  /** v is none of the first k keys. */
  predicate Missing(keys: seq<int>, k: nat, v: int)
    requires k <= |keys|
  {
    forall j :: 0 <= j < k ==> keys[j] != v
  }

  /** In a strictly increasing key list, the first key at least c is c itself when c is a key. */
  lemma FirstAtLeast(keys: seq<int>, k: nat, c: int)
    requires StrictlyIncreasing(keys) && c in keys && k < |keys| && keys[k] >= c
    requires forall j :: 0 <= j < k ==> keys[j] < c
    ensures keys[k] == c
  {
    var at :| 0 <= at < |keys| && keys[at] == c;
    assert at >= k;
    assert at <= k;
  }

  /**
   * The inner loop over the keys for one `c_start`: collect
   * `c_start, c_start + q, ...` while the keys provide them, stopping as soon
   * as `len` have been found.
   */
  method FindWindow(keys: seq<int>, cStart: int, len: nat, q: nat) returns (found: bool, current: seq<int>)
    requires StrictlyIncreasing(keys) && cStart in keys && q >= 1
    ensures found <==> len >= 1 && IsFullWindow(keys, cStart, len, q)
    ensures found ==> current == Progression(cStart, len, q)
  {
    current := [];
    found := false;
    var k := 0;
    while k < |keys| && !found
      invariant 0 <= k <= |keys|
      invariant current == Progression(cStart, |current|, q)
      invariant forall j :: 0 <= j < |current| ==> current[j] in keys
      invariant !found ==> Missing(keys, k, cStart + |current| * q)
      invariant len >= 1 ==> |current| <= len
      invariant found <==> |current| == len && len >= 1
      invariant |current| >= 1 || forall j :: 0 <= j < k ==> keys[j] < cStart
    {
      var c := keys[k];
      if c >= cStart {
        if |current| == 0 {
          FirstAtLeast(keys, k, cStart);
        }
        if c - cStart == |current| * q {
          current := current + [c];
          assert Missing(keys, k + 1, cStart + |current| * q) by {
            forall j | 0 <= j < k ensures keys[j] < c { }
          }
        }
        if |current| == len {
          found := true;
        }
      }
      k := k + 1;
    }
    if found {
      forall j | 0 <= j < len ensures cStart + j * q in keys {
        assert current[j] == cStart + j * q;
      }
    } else if len >= 1 && IsFullWindow(keys, cStart, len, q) {
      assert false;
    }
  }

  /** The first loop of `get_initial_constants`: every full window, in ascending order of its start. */
  method CollectCandidates(keys: seq<int>, len: nat, q: nat) returns (allPossible: seq<seq<int>>)
    requires StrictlyIncreasing(keys) && q >= 1
    ensures allPossible == Candidates(keys, len, q)
  {
    allPossible := [];
    var s := 0;
    while s < |keys|
      invariant 0 <= s <= |keys|
      invariant allPossible + CandidatesFrom(keys, keys[s..], len, q) == Candidates(keys, len, q)
    {
      var found, current := FindWindow(keys, keys[s], len, q);
      assert keys[s..][0] == keys[s] && keys[s..][1..] == keys[s + 1..];
      if found {
        allPossible := allPossible + [current];
      }
      s := s + 1;
    }
  }

  /** The inner `for (oi, ot)` loop: mark every window whose class is that of window i. */
  method IgnoreClass(ws: seq<seq<int>>, q: nat, i: nat, ignore: set<int>) returns (ignored: set<int>)
    requires NonEmptyWindows(ws) && i < |ws| && q >= 1
    ensures forall x :: x in ignored <==> x in ignore || (0 <= x < |ws| && SameClass(q, ws[i][0], ws[x][0]))
  {
    ignored := ignore;
    var oi := 0;
    while oi < |ws|
      invariant 0 <= oi <= |ws|
      invariant forall x :: x in ignored <==> x in ignore || (0 <= x < oi && SameClass(q, ws[i][0], ws[x][0]))
    {
      if SameClass(q, ws[i][0], ws[oi][0]) {
        ignored := ignored + {oi};
      }
      oi := oi + 1;
    }
  }

  /** The `ignore` set after the windows before i have been visited. */
  ghost predicate IgnoredBefore(ws: seq<seq<int>>, q: nat, i: nat, ignore: set<int>)
    requires NonEmptyWindows(ws) && i <= |ws|
  {
    forall x :: x in ignore <==> 0 <= x < |ws| && ClassSeen(ws, q, i, x)
  }

  /** One of the windows before i shares the class of window x. */
  predicate ClassSeen(ws: seq<seq<int>>, q: nat, i: nat, x: nat)
    requires NonEmptyWindows(ws) && i <= |ws| && x < |ws|
  {
    exists j :: 0 <= j < i && SameClass(q, ws[j][0], ws[x][0])
  }

  /** A window already ignored adds nothing new to the `ignore` set. */
  lemma IgnoredStep(ws: seq<seq<int>>, q: nat, i: nat, ignore: set<int>)
    requires NonEmptyWindows(ws) && i < |ws| && q >= 1
    requires IgnoredBefore(ws, q, i, ignore)
    ensures i in ignore <==> HasEarlier(ws, q, i)
    ensures i in ignore ==> IgnoredBefore(ws, q, i + 1, ignore)
  {
    assert i in ignore <==> ClassSeen(ws, q, i, i);
    if i in ignore {
      var j :| 0 <= j < i && SameClass(q, ws[j][0], ws[i][0]);
      forall x | 0 <= x < |ws| ensures ClassSeen(ws, q, i + 1, x) <==> ClassSeen(ws, q, i, x) {
        if SameClass(q, ws[i][0], ws[x][0]) {
          assert SameClass(q, ws[j][0], ws[x][0]);
        }
      }
    }
  }

  /** Marking the class of window i extends the `ignore` set to the windows before i + 1. */
  lemma IgnoredAfter(ws: seq<seq<int>>, q: nat, i: nat, ignore: set<int>, ignored: set<int>)
    requires NonEmptyWindows(ws) && i < |ws| && q >= 1
    requires IgnoredBefore(ws, q, i, ignore)
    requires forall x :: x in ignored <==> x in ignore || (0 <= x < |ws| && SameClass(q, ws[i][0], ws[x][0]))
    ensures IgnoredBefore(ws, q, i + 1, ignored)
  {
    forall x | 0 <= x < |ws|
      ensures ClassSeen(ws, q, i + 1, x) <==> ClassSeen(ws, q, i, x) || SameClass(q, ws[i][0], ws[x][0])
    {
      if ClassSeen(ws, q, i + 1, x) && !SameClass(q, ws[i][0], ws[x][0]) {
        var j :| 0 <= j < i + 1 && SameClass(q, ws[j][0], ws[x][0]);
        assert j < i;
      }
    }
  }

  /** The deduplication loop with its `ignore` set, for windows visited in the order given. */
  method KeepFirstOfClass(ws: seq<seq<int>>, q: nat) returns (kept: seq<seq<int>>)
    requires NonEmptyWindows(ws) && q >= 1
    ensures kept == KeepFirst(ws, q)
  {
    var ignore: set<int> := {};
    kept := [];
    var i := 0;
    while i < |ws|
      invariant 0 <= i <= |ws|
      invariant IgnoredBefore(ws, q, i, ignore)
      invariant kept == KeepFirstUpTo(ws, q, i)
    {
      IgnoredStep(ws, q, i, ignore);
      assert KeepFirstUpTo(ws, q, i + 1) ==
        KeepFirstUpTo(ws, q, i) + (if HasEarlier(ws, q, i) then [] else [ws[i]]);
      if i !in ignore {
        kept := kept + [ws[i]];
        var ignored := IgnoreClass(ws, q, i, ignore);
        IgnoredAfter(ws, q, i, ignore, ignored);
        ignore := ignored;
      }
      i := i + 1;
    }
  }

  /** `get_initial_constants`. */
  method GetInitialConstants(constants: BTreeMap, tuple: set<int>, q: nat, op: StepOperator)
    returns (r: Result<seq<seq<int>>, Error>)
    requires q >= 1
    ensures r == SeedsFor(constants, tuple, q, op)
  {
    if tuple != Eureka.Range(1, |tuple| + 1) {
      return Err(NotContiguous);
    }
    var keys := Keys(constants);
    var allPossible := CollectCandidates(keys, |tuple|, q);
    CandidatesNonEmpty(keys, keys, |tuple|, q);
    var result: seq<seq<int>>;
    if op == StepSub {
      result := KeepFirstOfClass(allPossible, q);
    } else {
      var kept := KeepFirstOfClass(Reversed(allPossible), q);
      result := MapReversed(kept);
    }
    if |result| > 0 {
      return Ok(result);
    }
    return Err(NoSeedWindow);
  }

  // ---------------------------------------------------------------------------
  // What `get_initial_constants` promises

  /** Every survivor is one of the windows. */
  lemma SurvivorIsWindow(ws: seq<seq<int>>, q: nat, kf: seq<seq<int>>, k: nat) returns (i: nat)
    requires NonEmptyWindows(ws) && kf == KeepFirst(ws, q) && k < |kf|
    ensures i < |ws| && kf[k] == ws[i]
  {
    KeepFirstMembers(ws, q, |ws|);
    assert FirstOfClass(ws, q, |ws|, kf[k]);
    i :| 0 <= i < |ws| && !HasEarlier(ws, q, i) && kf[k] == ws[i];
  }

  /** The survivor of a class is the earliest window of that class. */
  lemma SurvivorIsEarliest(ws: seq<seq<int>>, q: nat, kf: seq<seq<int>>, k: nat, i: nat) returns (j: nat)
    requires NonEmptyWindows(ws) && q >= 1 && kf == KeepFirst(ws, q) && k < |kf| && i < |ws|
    requires SameClass(q, kf[k][0], ws[i][0])
    ensures j <= i && kf[k] == ws[j]
  {
    KeepFirstCovers(ws, q, |ws|, i);
    var k', j' :| 0 <= k' < |kf| && 0 <= j' <= i && kf[k'] == ws[j'] && SameClass(q, ws[j'][0], ws[i][0]);
    KeepFirstDistinct(ws, q, |ws|);
    if k' < k {
      assert false;
    } else if k < k' {
      assert false;
    }
    j := j';
  }

  /** Every window's class has a survivor. */
  lemma ClassHasSurvivor(ws: seq<seq<int>>, q: nat, kf: seq<seq<int>>, i: nat) returns (k: nat)
    requires NonEmptyWindows(ws) && q >= 1 && kf == KeepFirst(ws, q) && i < |ws|
    ensures k < |kf| && SameClass(q, kf[k][0], ws[i][0])
  {
    KeepFirstCovers(ws, q, |ws|, i);
    var k', j :| 0 <= k' < |kf| && 0 <= j <= i && kf[k'] == ws[j] && SameClass(q, ws[j][0], ws[i][0]);
    k := k';
  }

  /** With no windows at all nothing is collected. */
  lemma {:induction false} CandidatesOfEmptyWindow(keys: seq<int>, starts: seq<int>, q: nat)
    ensures CandidatesFrom(keys, starts, 0, q) == []
    decreases |starts|
  {
    if starts != [] {
      CandidatesOfEmptyWindow(keys, starts[1..], q);
    }
  }

  /** A qualifying start is the first element of one of the candidates. */
  lemma CandidateAt(keys: seq<int>, len: nat, q: nat, c: int) returns (i: nat)
    requires c in keys && len >= 1 && IsFullWindow(keys, c, len, q)
    ensures NonEmptyWindows(Candidates(keys, len, q))
    ensures i < |Candidates(keys, len, q)| && Candidates(keys, len, q)[i] == Progression(c, len, q)
  {
    CandidatesNonEmpty(keys, keys, len, q);
    CandidatesComplete(keys, keys, len, q, c);
    var cs := Candidates(keys, len, q);
    i :| 0 <= i < |cs| && cs[i] == Progression(c, len, q);
  }

  /** A start has a full window of constant keys and is itself a key. */
  predicate Qualifies(keys: seq<int>, c: int, len: nat, q: nat) {
    c in keys && IsFullWindow(keys, c, len, q)
  }

  /** The seeds of a successful `get_initial_constants` come from a contiguous tuple of length at least 1. */
  lemma SeedsShape(constants: BTreeMap, tuple: set<int>, q: nat, op: StepOperator, seeds: seq<seq<int>>)
    requires q >= 1 && SeedsFor(constants, tuple, q, op) == Ok(seeds)
    ensures Contiguous(tuple) && |tuple| >= 1 && |seeds| > 0
    ensures NonEmptyWindows(Candidates(Keys(constants), |tuple|, q))
    ensures op == StepSub ==> seeds == KeepFirst(Candidates(Keys(constants), |tuple|, q), q)
    ensures op == StepAdd ==> seeds == MapReversed(KeepFirst(Reversed(Candidates(Keys(constants), |tuple|, q)), q))
  {
    CandidatesNonEmpty(Keys(constants), Keys(constants), |tuple|, q);
    if |tuple| == 0 {
      CandidatesOfEmptyWindow(Keys(constants), Keys(constants), q);
      assert false;
    }
  }

  /**
   * For StepSub every seed is a full window `c, c + q, ..., c + (L - 1) q`
   * of constant keys.
   */
  lemma SubSeedsAreWindows(constants: BTreeMap, tuple: set<int>, q: nat, seeds: seq<seq<int>>, k: nat)
    requires q >= 1 && SeedsFor(constants, tuple, q, StepSub) == Ok(seeds) && k < |seeds|
    ensures |seeds[k]| == |tuple| >= 1
    ensures seeds[k] == Progression(seeds[k][0], |tuple|, q) && Qualifies(Keys(constants), seeds[k][0], |tuple|, q)
  {
    var keys, len := Keys(constants), |tuple|;
    SeedsShape(constants, tuple, q, StepSub, seeds);
    var cs := Candidates(keys, len, q);
    CandidatesNonEmpty(keys, keys, len, q);
    var i := SurvivorIsWindow(cs, q, seeds, k);
    assert seeds[k][0] == seeds[k][0] + 0 * q;
  }

  /** No two StepSub seeds start in the same residue class. */
  lemma SubSeedsDistinct(constants: BTreeMap, tuple: set<int>, q: nat, seeds: seq<seq<int>>)
    requires q >= 1 && SeedsFor(constants, tuple, q, StepSub) == Ok(seeds)
    ensures NonEmptyWindows(seeds)
    ensures forall a, b :: 0 <= a < b < |seeds| ==> !SameClass(q, seeds[a][0], seeds[b][0])
  {
    SeedsShape(constants, tuple, q, StepSub, seeds);
    KeepFirstDistinct(Candidates(Keys(constants), |tuple|, q), q, |Candidates(Keys(constants), |tuple|, q)|);
  }

  /** Every qualifying start has a StepSub seed of its class, starting no higher. */
  lemma SubSeedsLowest(constants: BTreeMap, tuple: set<int>, q: nat, seeds: seq<seq<int>>, c: int) returns (k: nat)
    requires q >= 1 && SeedsFor(constants, tuple, q, StepSub) == Ok(seeds)
    requires Qualifies(Keys(constants), c, |tuple|, q)
    ensures NonEmptyWindows(seeds)
    ensures k < |seeds| && SameClass(q, seeds[k][0], c) && seeds[k][0] <= c
  {
    var keys, len := Keys(constants), |tuple|;
    SeedsShape(constants, tuple, q, StepSub, seeds);
    var cs := Candidates(keys, len, q);
    var i := CandidateAt(keys, len, q, c);
    k := ClassHasSurvivor(cs, q, seeds, i);
    var j := SurvivorIsEarliest(cs, q, seeds, k, i);
    KeysStrictlyIncreasing(constants);
    CandidatesIncreasing(keys, keys, len, q);
  }

  /** Each StepSub seed starts at the lowest qualifying start of its class. */
  lemma SubSeedIsLowest(constants: BTreeMap, tuple: set<int>, q: nat, seeds: seq<seq<int>>, k: nat, c: int)
    requires q >= 1 && SeedsFor(constants, tuple, q, StepSub) == Ok(seeds) && k < |seeds|
    requires Qualifies(Keys(constants), c, |tuple|, q)
    ensures NonEmptyWindows(seeds)
    ensures SameClass(q, seeds[k][0], c) ==> seeds[k][0] <= c
  {
    var keys, len := Keys(constants), |tuple|;
    SeedsShape(constants, tuple, q, StepSub, seeds);
    var cs := Candidates(keys, len, q);
    if SameClass(q, seeds[k][0], c) {
      var i := CandidateAt(keys, len, q, c);
      var j := SurvivorIsEarliest(cs, q, seeds, k, i);
      KeysStrictlyIncreasing(constants);
      CandidatesIncreasing(keys, keys, len, q);
    }
  }

  /**
   * For StepAdd every seed is a full window read from the top down,
   * `c + (L - 1) q, ..., c + q, c`, so its last element c is a qualifying start.
   */
  lemma AddSeedsAreWindows(constants: BTreeMap, tuple: set<int>, q: nat, seeds: seq<seq<int>>, k: nat)
    requires q >= 1 && SeedsFor(constants, tuple, q, StepAdd) == Ok(seeds) && k < |seeds|
    ensures |seeds[k]| == |tuple| >= 1
    ensures seeds[k] == Reversed(Progression(seeds[k][|tuple| - 1], |tuple|, q))
    ensures Qualifies(Keys(constants), seeds[k][|tuple| - 1], |tuple|, q)
  {
    var keys, len := Keys(constants), |tuple|;
    SeedsShape(constants, tuple, q, StepAdd, seeds);
    var cs := Candidates(keys, len, q);
    CandidatesNonEmpty(keys, keys, len, q);
    var rs := Reversed(cs);
    var kf := KeepFirst(rs, q);
    var i := SurvivorIsWindow(rs, q, kf, k);
    assert kf[k] == cs[|cs| - 1 - i];
    assert seeds[k] == Reversed(kf[k]);
    assert seeds[k][len - 1] == kf[k][0];
    assert kf[k][0] == kf[k][0] + 0 * q;
  }

  /** No two StepAdd seeds end in the same residue class. */
  lemma AddSeedsDistinct(constants: BTreeMap, tuple: set<int>, q: nat, seeds: seq<seq<int>>, a: nat, b: nat)
    requires q >= 1 && SeedsFor(constants, tuple, q, StepAdd) == Ok(seeds) && a < b < |seeds|
    ensures |seeds[a]| == |seeds[b]| == |tuple| >= 1
    ensures !SameClass(q, seeds[a][|tuple| - 1], seeds[b][|tuple| - 1])
  {
    var keys, len := Keys(constants), |tuple|;
    SeedsShape(constants, tuple, q, StepAdd, seeds);
    var cs := Candidates(keys, len, q);
    var rs := Reversed(cs);
    var kf := KeepFirst(rs, q);
    AddSeedsAreWindows(constants, tuple, q, seeds, a);
    AddSeedsAreWindows(constants, tuple, q, seeds, b);
    KeepFirstDistinct(rs, q, |rs|);
    assert seeds[a][len - 1] == kf[a][0] && seeds[b][len - 1] == kf[b][0];
  }

  /** Every qualifying start has a StepAdd seed of its class, ending no lower. */
  lemma AddSeedsHighest(constants: BTreeMap, tuple: set<int>, q: nat, seeds: seq<seq<int>>, c: int) returns (k: nat)
    requires q >= 1 && SeedsFor(constants, tuple, q, StepAdd) == Ok(seeds)
    requires Qualifies(Keys(constants), c, |tuple|, q)
    ensures k < |seeds| && |seeds[k]| == |tuple| >= 1
    ensures SameClass(q, seeds[k][|tuple| - 1], c) && seeds[k][|tuple| - 1] >= c
  {
    var keys, len := Keys(constants), |tuple|;
    SeedsShape(constants, tuple, q, StepAdd, seeds);
    var cs := Candidates(keys, len, q);
    var rs := Reversed(cs);
    var kf := KeepFirst(rs, q);
    var i := CandidateAt(keys, len, q, c);
    var r := |cs| - 1 - i;
    assert rs[r] == cs[i];
    k := ClassHasSurvivor(rs, q, kf, r);
    var j := SurvivorIsEarliest(rs, q, kf, k, r);
    AddSeedsAreWindows(constants, tuple, q, seeds, k);
    assert seeds[k][len - 1] == kf[k][0] == cs[|cs| - 1 - j][0];
    KeysStrictlyIncreasing(constants);
    CandidatesIncreasing(keys, keys, len, q);
  }

  /** Each StepAdd seed ends at the highest qualifying start of its class. */
  lemma AddSeedIsHighest(constants: BTreeMap, tuple: set<int>, q: nat, seeds: seq<seq<int>>, k: nat, c: int)
    requires q >= 1 && SeedsFor(constants, tuple, q, StepAdd) == Ok(seeds) && k < |seeds|
    requires Qualifies(Keys(constants), c, |tuple|, q)
    ensures |seeds[k]| == |tuple| >= 1
    ensures SameClass(q, seeds[k][|tuple| - 1], c) ==> seeds[k][|tuple| - 1] >= c
  {
    var keys, len := Keys(constants), |tuple|;
    SeedsShape(constants, tuple, q, StepAdd, seeds);
    AddSeedsAreWindows(constants, tuple, q, seeds, k);
    var cs := Candidates(keys, len, q);
    var rs := Reversed(cs);
    var kf := KeepFirst(rs, q);
    assert seeds[k][len - 1] == kf[k][0];
    if SameClass(q, seeds[k][len - 1], c) {
      var i := CandidateAt(keys, len, q, c);
      var r := |cs| - 1 - i;
      assert rs[r] == cs[i];
      var j := SurvivorIsEarliest(rs, q, kf, k, r);
      assert kf[k][0] == cs[|cs| - 1 - j][0];
      KeysStrictlyIncreasing(constants);
      CandidatesIncreasing(keys, keys, len, q);
    }
  }

  /** `get_initial_constants` aborts for want of seeds exactly when no start qualifies. */
  lemma NoSeedWindowExactly(constants: BTreeMap, tuple: set<int>, q: nat, op: StepOperator)
    requires q >= 1
    ensures SeedsFor(constants, tuple, q, op) == Err(NoSeedWindow) <==>
      Contiguous(tuple) && !(|tuple| >= 1 && exists c :: Qualifies(Keys(constants), c, |tuple|, q))
  {
    var keys, len := Keys(constants), |tuple|;
    if Contiguous(tuple) {
      CandidatesNonEmpty(keys, keys, len, q);
      var cs := Candidates(keys, len, q);
      if len >= 1 && exists c :: Qualifies(keys, c, len, q) {
        var c :| Qualifies(keys, c, len, q);
        var i := CandidateAt(keys, len, q, c);
        KeepFirstEmpty(cs, q, |cs|);
        KeepFirstEmpty(Reversed(cs), q, |cs|);
      } else if |cs| > 0 {
        CandidatesNonEmpty(keys, keys, len, q);
        CandidatesStartIn(keys, keys, len, q);
        assert Qualifies(keys, cs[0][0], len, q);
        assert false;
      }
    }
  }
}
