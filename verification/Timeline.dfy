/** Lists of times: what lies in a span, and pruning the front of a list. */
module Timeline {
  import opened Common

  ghost predicate Sorted(h: seq<Time>) {
    forall i, j :: 0 <= i < j < |h| ==> h[i] <= h[j]
  }

  ghost predicate Until(h: seq<Time>, t: Time) {
    forall i :: 0 <= i < |h| ==> h[i] <= t
  }

  /** The elements of `h` that lie in the closed interval from `lo` to `hi`. */
  function InSpan(h: seq<Time>, lo: Time, hi: Time): seq<Time> {
    if h == [] then []
    else (if lo <= h[0] <= hi then [h[0]] else []) + InSpan(h[1..], lo, hi)
  }

  lemma {:induction false} InSpanConcat(a: seq<Time>, b: seq<Time>, lo: Time, hi: Time)
    ensures InSpan(a + b, lo, hi) == InSpan(a, lo, hi) + InSpan(b, lo, hi)
  {
    if a == [] {
      assert a + b == b;
    } else {
      assert (a + b)[1..] == a[1..] + b;
      InSpanConcat(a[1..], b, lo, hi);
    }
  }

  lemma {:induction false} InSpanAppend(h: seq<Time>, t: Time, lo: Time, hi: Time)
    ensures InSpan(h + [t], lo, hi) == InSpan(h, lo, hi) + if lo <= t <= hi then [t] else []
  {
    InSpanConcat(h, [t], lo, hi);
    assert [t][1..] == [];
  }

  lemma {:induction false} InSpanBounds(h: seq<Time>, lo: Time, hi: Time)
    ensures |InSpan(h, lo, hi)| <= |h|
    ensures forall i :: 0 <= i < |InSpan(h, lo, hi)| ==> lo <= InSpan(h, lo, hi)[i] <= hi
  {
    if h != [] {
      InSpanBounds(h[1..], lo, hi);
    }
  }

  lemma {:induction false} InSpanAll(h: seq<Time>, lo: Time, hi: Time)
    requires forall i :: 0 <= i < |h| ==> lo <= h[i] <= hi
    ensures InSpan(h, lo, hi) == h
  {
    if h != [] {
      InSpanAll(h[1..], lo, hi);
    }
  }

  lemma {:induction false} InSpanEmpty(h: seq<Time>, lo: Time, hi: Time)
    requires lo > hi
    ensures InSpan(h, lo, hi) == []
  {
    if h != [] {
      InSpanEmpty(h[1..], lo, hi);
    }
  }

  /** The selected elements fit between two of them. */
  lemma {:induction false} InSpanEnds(h: seq<Time>, lo: Time, hi: Time) returns (i: nat, j: nat)
    requires InSpan(h, lo, hi) != []
    ensures i <= j < |h| && lo <= h[i] && h[j] <= hi
    ensures |InSpan(h, lo, hi)| <= j - i + 1
  {
    if InSpan(h[1..], lo, hi) == [] {
      i, j := 0, 0;
    } else {
      i, j := InSpanEnds(h[1..], lo, hi);
      i, j := if lo <= h[0] <= hi then 0 else i + 1, j + 1;
    }
  }

  /** A smaller interval holds no more elements. */
  lemma {:induction false} InSpanNarrow(h: seq<Time>, lo: Time, hi: Time, lo': Time, hi': Time)
    requires lo <= lo' && hi' <= hi
    ensures |InSpan(h, lo', hi')| <= |InSpan(h, lo, hi)|
  {
    if h != [] {
      InSpanNarrow(h[1..], lo, hi, lo', hi');
    }
  }

  /** Raising the upper end beyond every element selects nothing more. */
  lemma {:induction false} InSpanCap(h: seq<Time>, lo: Time, hi: Time, hi': Time)
    requires Until(h, hi) && hi <= hi'
    ensures InSpan(h, lo, hi) == InSpan(h, lo, hi')
  {
    if h != [] {
      InSpanCap(h[1..], lo, hi, hi');
    }
  }

  /** Raising the lower end to the first selected element of a sorted history loses nothing. */
  lemma {:induction false} InSpanFromFirst(h: seq<Time>, lo: Time, hi: Time)
    requires Sorted(h) && InSpan(h, lo, hi) != []
    ensures InSpan(h, lo, hi) == InSpan(h, InSpan(h, lo, hi)[0], hi)
  {
    if lo <= h[0] <= hi {
      InSpanFloor(h[1..], lo, h[0], hi);
    } else {
      InSpanFromFirst(h[1..], lo, hi);
      InSpanBounds(h[1..], lo, hi);
    }
  }

  lemma {:induction false} InSpanFloor(h: seq<Time>, lo: Time, lo': Time, hi: Time)
    requires lo <= lo' && forall i :: 0 <= i < |h| ==> lo' <= h[i]
    ensures InSpan(h, lo, hi) == InSpan(h, lo', hi)
  {
    if h != [] {
      InSpanFloor(h[1..], lo, lo', hi);
    }
  }

  /** Raising the lower end past the first selected element loses at least that one. */
  lemma {:induction false} InSpanPastFirst(h: seq<Time>, lo: Time, hi: Time, lo': Time, hi': Time)
    requires Until(h, hi) && hi <= hi' && lo <= lo'
    requires InSpan(h, lo, hi) != [] && InSpan(h, lo, hi)[0] < lo'
    ensures |InSpan(h, lo', hi')| < |InSpan(h, lo, hi)|
  {
    if lo <= h[0] {
      InSpanCap(h[1..], lo', hi, hi');
      InSpanNarrow(h[1..], lo, hi, lo', hi);
    } else {
      InSpanPastFirst(h[1..], lo, hi, lo', hi');
    }
  }

  /** The list without its leading entries from before `cutoff`. */
  function Expire(l: seq<Time>, cutoff: Time): seq<Time> {
    if l != [] && l[0] < cutoff then Expire(l[1..], cutoff) else l
  }

  /** `l` is the end of `h`, and what precedes it in `h` is from before `cutoff`. */
  ghost predicate Tracks(l: seq<Time>, h: seq<Time>, cutoff: Time) {
    l == h || (h != [] && h[0] < cutoff && Tracks(l, h[1..], cutoff))
  }

  lemma {:induction false} TracksTransitive(l: seq<Time>, k: seq<Time>, h: seq<Time>, lo: Time, lo': Time)
    requires Tracks(k, h, lo) && Tracks(l, k, lo') && lo <= lo'
    ensures Tracks(l, h, lo')
  {
    if k != h {
      TracksTransitive(l, k, h[1..], lo, lo');
    }
  }

  lemma {:induction false} TracksAppend(l: seq<Time>, h: seq<Time>, t: Time, lo: Time)
    requires Tracks(l, h, lo)
    ensures Tracks(l + [t], h + [t], lo)
  {
    if l != h {
      TracksAppend(l, h[1..], t, lo);
      assert (h + [t])[1..] == h[1..] + [t];
    }
  }

  lemma {:induction false} TracksInSpan(l: seq<Time>, h: seq<Time>, lo: Time, now: Time)
    requires Tracks(l, h, lo)
    ensures InSpan(l, lo, now) == InSpan(h, lo, now)
  {
    if l != h {
      TracksInSpan(l, h[1..], lo, now);
    }
  }

  lemma {:induction false} TracksPart(l: seq<Time>, h: seq<Time>, lo: Time, now: Time)
    requires Tracks(l, h, lo) && Sorted(h) && Until(h, now)
    ensures Sorted(l) && Until(l, now)
  {
    if l != h {
      TracksPart(l, h[1..], lo, now);
    }
  }

  lemma {:induction false} ExpireTracks(l: seq<Time>, lo: Time)
    ensures Tracks(Expire(l, lo), l, lo)
    ensures Expire(l, lo) != [] ==> Expire(l, lo)[0] >= lo
  {
    if l != [] && l[0] < lo {
      ExpireTracks(l[1..], lo);
    }
  }

  /** Pruning the front of a sorted list selects exactly the entries in the window. */
  lemma {:induction false} ExpireIsInSpan(l: seq<Time>, h: seq<Time>, lo: Time, lo': Time, now: Time)
    requires Sorted(h) && Tracks(l, h, lo) && lo <= lo'
    requires Until(h, now)
    ensures Expire(l, lo') == InSpan(h, lo', now)
    ensures Tracks(Expire(l, lo'), h, lo')
  {
    var r := Expire(l, lo');
    ExpireTracks(l, lo');
    TracksTransitive(r, l, h, lo, lo');
    TracksInSpan(r, h, lo', now);
    TracksPart(r, h, lo', now);
    InSpanAll(r, lo', now);
  }

  lemma {:induction false} AllExpired(l: seq<Time>, cutoff: Time)
    requires forall i :: 0 <= i < |l| ==> l[i] < cutoff
    ensures Tracks([], l, cutoff)
  {
    if l != [] {
      AllExpired(l[1..], cutoff);
    }
  }
}
