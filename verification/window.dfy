/**
 * The sliding membership windows of the 17x17 scanner (checkCols/checkRows).
 *
 * For one axis, a boolean vector records which regions contain the current
 * scan coordinate. Instead of testing every region for every coordinate, a
 * step looks at just two slots: the first active one, which is switched off
 * once the coordinate reaches its trailing edge, and the one just after the
 * active run, which is switched on once the coordinate reaches its leading
 * edge. The main result here is that, over a raster scan 0, 1, 2, ...,
 * these steps reproduce brute-force half-open containment exactly.
 */
module Window {
  import opened Layout

  /** The region centred at c with half-extent half contains coordinate x: [c - half, c + half). */
  predicate Contains(c: int, half: int, x: int) {
    c - half <= x < c + half
  }

  /** Brute-force membership: slot k holds whether region k contains x. */
  function Active(centres: seq<int>, half: int, x: int): seq<bool> {
    seq(|centres|, k requires 0 <= k < |centres| => Contains(centres[k], half, x))
  }

  /** The window before the first coordinate: only the first region is marked. */
  function Initial(n: nat): (s: seq<bool>)
    requires n >= 1
  {
    seq(n, k => k == 0)
  }

  /**
   * Starting at index k, skip every slot that holds v; the result is the
   * first index at or after k that does not hold v (k itself when k is
   * already past the end).
   */
  function Skip(s: seq<bool>, k: nat, v: bool): (j: nat)
    ensures k <= j
    ensures j < |s| ==> s[j] != v
    ensures forall t :: k <= t < j ==> t < |s| && s[t] == v
    ensures j <= |s| || j == k
    decreases |s| - k
  {
    if k >= |s| || s[k] != v then k else Skip(s, k + 1, v)
  }

  /** The first active slot, or |s| when none is active. */
  function Lead(s: seq<bool>): nat {
    Skip(s, 0, false)
  }

  /** The slot just after the first active run (past the end when nothing is active). */
  function Trail(s: seq<bool>): nat {
    Skip(s, Lead(s) + 1, true)
  }

  /**
   * next is what one window step at coordinate x makes of prev: only the
   * slots Lead(prev) and Trail(prev) may change; the lead slot stays active
   * only while x is before its region's trailing edge, and the trail slot
   * becomes active once x reaches its region's leading edge.
   */
  ghost predicate Slides(prev: seq<bool>, next: seq<bool>, centres: seq<int>, half: int, x: int) {
    && |prev| == |next| == |centres|
    && (forall k :: 0 <= k < |centres| && k != Lead(prev) && k != Trail(prev) ==> next[k] == prev[k])
    && (Lead(prev) < |centres| ==> (next[Lead(prev)] <==> x < centres[Lead(prev)] + half))
    && (Trail(prev) < |centres| ==> (next[Trail(prev)] <==> centres[Trail(prev)] - half <= x))
  }

  /** s is active exactly on the slots lo .. hi-1. */
  ghost predicate IsRun(s: seq<bool>, lo: nat, hi: nat) {
    && lo <= hi <= |s|
    && forall k :: 0 <= k < |s| ==> (s[k] <==> lo <= k < hi)
  }

  /**
   * Slot i lies in the first run of active slots, the run that
   * updateCounters walks from the first active slot onwards.
   */
  predicate InFirstRun(s: seq<bool>, i: nat) {
    Lead(s) <= i < Skip(s, Lead(s), true)
  }

  /** The active slots of s form a single run (possibly empty). */
  ghost predicate Contiguous(s: seq<bool>) {
    forall i, j, k :: 0 <= i < j < k < |s| && s[i] && s[k] ==> s[j]
  }

  /**
   * checkCols / checkRows: one window step at coordinate x. The same code
   * serves the column window (centres = column centres, half = HALF_WIDTH)
   * and the row window (row centres, HALF_HEIGHT).
   */
  method CheckWindow(active: seq<bool>, centres: seq<int>, half: int, x: int) returns (r: seq<bool>)
    requires |active| == |centres|
    ensures Slides(active, r, centres, half, x)
  {
    var n := |centres|;
    r := active;
    var i := 0;
    while i < n && r[i] == false
      invariant 0 <= i <= n
      invariant r == active
      invariant forall t :: 0 <= t < i ==> !active[t]
    {
      i := i + 1;
    }
    assert i == Lead(active);
    if i < n && centres[i] + half <= x {
      r := r[i := false];
    }
    i := i + 1;
    while i < n && r[i] == true
      invariant Lead(active) + 1 <= i
      invariant i <= n || i == Lead(active) + 1
      invariant forall t :: Lead(active) + 1 <= t < i ==> t < n && active[t]
      invariant forall k :: 0 <= k < n && k != Lead(active) ==> r[k] == active[k]
      invariant Lead(active) < n ==> (r[Lead(active)] <==> x < centres[Lead(active)] + half)
      invariant |r| == n
    {
      i := i + 1;
    }
    assert i == Trail(active);
    if i < n && centres[i] - half <= x {
      r := r[i := true];
    }
  }

  /** A window step is determined by its input: two results of the same step are equal. */
  lemma SlidesDeterministic(prev: seq<bool>, a: seq<bool>, b: seq<bool>, centres: seq<int>, half: int, x: int)
    requires Slides(prev, a, centres, half, x) && Slides(prev, b, centres, half, x)
    ensures a == b
  {
    forall k | 0 <= k < |a|
      ensures a[k] == b[k]
    {
    }
  }

  /**
   * The active slots stay one contiguous run: a step on the run lo .. hi-1
   * drops lo when x has reached lo's trailing edge and appends hi when x has
   * reached hi's leading edge; an empty window stays empty.
   */
  lemma SlidesKeepsRun(prev: seq<bool>, next: seq<bool>, centres: seq<int>, half: int, x: int, lo: nat, hi: nat)
    requires IsRun(prev, lo, hi)
    requires Slides(prev, next, centres, half, x)
    ensures lo < hi ==> IsRun(next,
                              if centres[lo] + half <= x then lo + 1 else lo,
                              if hi < |centres| && centres[hi] - half <= x then hi + 1 else hi)
    ensures lo == hi ==> next == prev
  {
    var n := |centres|;
    if lo < hi {
      assert Lead(prev) == lo by {
        assert prev[lo];
      }
      assert Trail(prev) == hi by {
        assert hi < n ==> !prev[hi];
      }
    }
  }

  /** Strictly increasing centres: any two are at least their index distance apart. */
  lemma {:induction false} Ascending(centres: seq<int>, i: nat, j: nat)
    requires j < |centres| && GapsAtLeast(centres, 0, |centres| - 1, 1)
    requires i <= j
    ensures centres[i] + (j - i) <= centres[j]
    decreases j - i
  {
    if i < j {
      Ascending(centres, i, j - 1);
    }
  }

  /**
   * On a well-spaced axis, a coordinate x >= 0 that no region contains lies
   * past the trailing edge of every region: the regions leave no gap.
   */
  lemma {:induction false} NoGap(centres: seq<int>, half: int, x: int, k: nat)
    requires WellSpaced(centres, half) && 0 <= x
    requires forall t :: 0 <= t < |centres| ==> !Contains(centres[t], half, x)
    requires k < |centres|
    ensures centres[k] + half <= x
  {
    if k > 0 {
      NoGap(centres, half, x, k - 1);
      assert centres[k] <= centres[k - 1] + 2 * half;
      assert !Contains(centres[k], half, x);
    } else {
      assert !Contains(centres[0], half, x);
    }
  }

  /**
   * One window step from the brute-force window at x - 1 yields exactly the
   * brute-force window at x (given the layout conditions).
   */
  lemma ActiveSlides(centres: seq<int>, half: int, x: int)
    requires WellSpaced(centres, half) && 1 <= x
    ensures Slides(Active(centres, half, x - 1), Active(centres, half, x), centres, half, x)
  {
    var n := |centres|;
    var prev := Active(centres, half, x - 1);
    var next := Active(centres, half, x);
    var lead := Lead(prev);
    var trail := Trail(prev);
    if lead < n {
      forall k | 0 <= k < n && k != lead && k != trail
        ensures next[k] == prev[k]
      {
        if k < lead {
          Ascending(centres, k, lead);
        } else if k < trail {
          Ascending(centres, lead, k);
        } else {
          Ascending(centres, lead, trail);
          Ascending(centres, trail, k);
          assert !prev[trail];
        }
      }
      if trail < n {
        Ascending(centres, lead, trail);
      }
    } else {
      forall k | 0 <= k < n
        ensures next[k] == prev[k]
      {
        forall t | 0 <= t < n
          ensures !Contains(centres[t], half, x - 1)
        {
          assert !prev[t];
        }
        NoGap(centres, half, x - 1, k);
      }
    }
  }

  /** The first step, from the initial window at coordinate 0, yields the brute-force window at 0. */
  lemma ActiveStarts(centres: seq<int>, half: int)
    requires WellSpaced(centres, half)
    ensures Slides(Initial(|centres|), Active(centres, half, 0), centres, half, 0)
  {
    var n := |centres|;
    var init := Initial(n);
    assert Lead(init) == 0 by {
      assert init[0];
    }
    forall k | 1 <= k < n
      ensures !Contains(centres[k], half, 0)
    {
      Ascending(centres, 0, k);
    }
  }

  /**
   * Membership correctness for a whole scan line: feeding coordinates
   * 0, 1, ..., x through the window step, starting from the initial window,
   * gives the brute-force window of x. The scanner uses this for its rows
   * and, afresh on every row, for its columns.
   */
  lemma ScanMatchesBruteForce(centres: seq<int>, half: int, prev: seq<bool>, next: seq<bool>, x: int)
    requires WellSpaced(centres, half) && 0 <= x
    requires prev == if x == 0 then Initial(|centres|) else Active(centres, half, x - 1)
    requires Slides(prev, next, centres, half, x)
    ensures next == Active(centres, half, x)
    ensures forall k :: 0 <= k < |centres| ==> (next[k] <==> centres[k] - half <= x < centres[k] + half)
  {
    if x == 0 {
      ActiveStarts(centres, half);
    } else {
      ActiveSlides(centres, half, x);
    }
    SlidesDeterministic(prev, next, Active(centres, half, x), centres, half, x);
  }

  /** In a single-run window, the first run is every active slot. */
  lemma ContiguousFirstRun(s: seq<bool>)
    requires Contiguous(s)
    ensures forall i :: 0 <= i < |s| ==> (InFirstRun(s, i) <==> s[i])
  {
    forall i | 0 <= i < |s|
      ensures InFirstRun(s, i) <==> s[i]
    {
      var end := Skip(s, Lead(s), true);
      assert end < |s| ==> !s[end];
    }
  }

  /** Brute-force membership on strictly increasing centres is a single run. */
  lemma ActiveContiguous(centres: seq<int>, half: int, x: int)
    requires |centres| >= 1 && GapsAtLeast(centres, 0, |centres| - 1, 1)
    ensures Contiguous(Active(centres, half, x))
  {
    var s := Active(centres, half, x);
    forall i, j, k | 0 <= i < j < k < |s| && s[i] && s[k]
      ensures s[j]
    {
      Ascending(centres, i, j);
      Ascending(centres, j, k);
    }
  }
}
