/** The loop detector: a ring buffer that stands for a sliding window over the commands seen. */
module LoopDetector {

  /** The last `m` elements, or all of them while there are fewer. */
  function Window<T>(s: seq<T>, m: nat): (w: seq<T>)
    ensures |w| <= m && |w| <= |s|
  {
    if |s| <= m then s else s[|s| - m..]
  }

  function Occurrences<T(==)>(s: seq<T>, x: T): nat {
    multiset(s)[x]
  }

  lemma {:induction false} OccurrencesBound<T>(s: seq<T>, x: T)
    ensures Occurrences(s, x) <= |s|
  {
    if s != [] {
      OccurrencesBound(s[1..], x);
      assert s == [s[0]] + s[1..];
    }
  }

  lemma {:induction false} MultipleIsFar(w: nat, k: int)
    requires w > 0
    ensures k == 0 || w * k >= w || w * k + w <= 0
    decreases if k >= 0 then k else -k
  {
    if k > 1 {
      MultipleIsFar(w, k - 1);
      assert w * k == w * (k - 1) + w;
    } else if k < -1 {
      MultipleIsFar(w, k + 1);
      assert w * k == w * (k + 1) - w;
    }
  }

  /** Where the n-th hash goes. */
  function Slot(w: nat, n: nat): (i: nat)
    requires w > 0
    ensures i < w && (n < w ==> i == n)
  {
    n % w
  }

  lemma QuotientIsUnique(w: nat, q: int, r: nat, n: nat)
    requires r < w && n == w * q + r
    ensures Slot(w, n) == r
  {
    var d := q - n / w;
    assert n == w * (n / w) + n % w;
    assert w * d == w * q - w * (n / w);
    MultipleIsFar(w, d);
  }

  /** The index in the last `w` before `n` that falls on slot `i`. */
  function LastOnSlot(n: nat, w: nat, i: nat): (j: nat)
    requires n >= w > i
  {
    if i < Slot(w, n) then n - Slot(w, n) + i else n - Slot(w, n) + i - w
  }

  lemma LastOnSlotIsRight(n: nat, w: nat, i: nat)
    requires n >= w > i
    ensures n - w <= LastOnSlot(n, w, i) < n && Slot(w, LastOnSlot(n, w, i)) == i
  {
    assert n == w * (n / w) + n % w;
    assert w * (n / w) - w == w * (n / w - 1);
    if i < n % w {
      QuotientIsUnique(w, n / w, i, LastOnSlot(n, w, i));
    } else {
      QuotientIsUnique(w, n / w - 1, i, LastOnSlot(n, w, i));
    }
  }

  /** Two indices less than `w` apart never share a slot. */
  lemma SlotsDiffer(w: nat, j: nat, n: nat)
    requires j < n < j + w
    ensures Slot(w, j) != Slot(w, n)
  {
    assert n == w * (n / w) + n % w;
    assert j == w * (j / w) + j % w;
    assert w * (n / w) - w * (j / w) == w * (n / w - j / w);
    MultipleIsFar(w, n / w - j / w);
  }

  /** Each of the last `|ring|` hashes is in its slot. */
  ghost predicate Holds<T(!new)>(ring: seq<T>, history: seq<T>)
    requires ring != []
  {
    forall j | 0 <= j < |history| && |history| - |ring| <= j :: ring[Slot(|ring|, j)] == history[j]
  }

  /** The filled slots hold exactly the sliding window's hashes, in some order. */
  lemma SlotsHoldWindow<T(!new)>(ring: seq<T>, history: seq<T>)
    requires ring != [] && Holds(ring, history)
    ensures var size := if |history| < |ring| then |history| else |ring|;
            multiset(ring[..size]) == multiset(Window(history, |ring|))
  {
    hide Slot;
    var n, w := |history|, |ring|;
    if n < w {
      assert forall j | 0 <= j < n :: ring[Slot(w, j)] == history[j];
      assert ring[..n] == history;
    } else {
      var r, last := Slot(w, n), Window(history, w);
      forall i | 0 <= i < w ensures ring[i] == if i < r then last[w - r + i] else last[i - r] {
        LastOnSlotIsRight(n, w, i);
        assert ring[Slot(w, LastOnSlot(n, w, i))] == history[LastOnSlot(n, w, i)];
      }
      Rotated(ring, last, r);
      assert ring[..w] == ring;
    }
  }

  lemma Rotated<T>(slots: seq<T>, last: seq<T>, r: nat)
    requires |slots| == |last| > r
    requires forall i | 0 <= i < |slots| :: slots[i] == if i < r then last[|slots| - r + i] else last[i - r]
    ensures multiset(slots) == multiset(last)
  {
    var w := |slots|;
    assert slots[..r] == last[w - r..];
    assert slots[r..] == last[..w - r];
    assert slots == slots[..r] + slots[r..];
    assert last == last[..w - r] + last[w - r..];
  }

  /** Overwriting the next slot keeps each hash that is still in the window. */
  lemma PushHolds<T(!new)>(ring: seq<T>, history: seq<T>, hash: T)
    requires ring != [] && Holds(ring, history)
    ensures Holds(ring[Slot(|ring|, |history|) := hash], history + [hash])
  {
    hide Slot;
    var n, w, after := |history|, |ring|, ring[Slot(|ring|, |history|) := hash];
    forall j | 0 <= j <= n && n + 1 - w <= j ensures after[Slot(w, j)] == (history + [hash])[j] {
      if j < n {
        SlotsDiffer(w, j, n);
      }
    }
  }

  lemma SlotsCountWindow<T(!new)>(ring: seq<T>, history: seq<T>, x: T)
    requires ring != [] && Holds(ring, history)
    ensures var size := if |history| < |ring| then |history| else |ring|;
            Occurrences(ring[..size], x) == Occurrences(Window(history, |ring|), x)
  {
    SlotsHoldWindow(ring, history);
  }

  class Detector<T(==, !new)> {
    const window: array<T>
    const windowSize: nat
    const tripN: nat
    var head: nat
    var size: nat
    ghost var history: seq<T>

    /** `history` is every hash pushed; the ring holds the last `windowSize` of them. */
    ghost predicate Valid()
      reads this, window
    {
      && windowSize == window.Length > 0
      && head == |history|
      && size == (if |history| < windowSize then |history| else windowSize)
      && Holds(window[..], history)
    }

    constructor (windowSize: nat, tripN: nat, blank: T)
      requires windowSize > 0
      ensures Valid() && fresh(window) && history == [] && this.windowSize == windowSize && this.tripN == tripN
    {
      this.window := new T[windowSize](_ => blank);
      this.windowSize := windowSize;
      this.tripN := tripN;
      head, size, history := 0, 0, [];
    }

    /** How often a hash occurs in the filled part of the ring. */
    method CountFilled(hash: T) returns (count: nat)
      requires size <= window.Length
      ensures count == Occurrences(window[..size], hash)
    {
      count := 0;
      for i := 0 to size
        invariant count == Occurrences(window[..i], hash)
      {
        assert window[..i + 1] == window[..i] + [window[i]];
        if window[i] == hash {
          count := count + 1;
        }
      }
    }

    /** Records a hash and reports whether it now occurs at least `tripN` times among the last
        `windowSize` recorded. */
    method Push(hash: T) returns (tripped: bool)
      requires Valid()
      modifies this, window
      ensures Valid() && history == old(history) + [hash]
      ensures tripped <==> Occurrences(Window(history, windowSize), hash) >= tripN
    {
      hide Slot, Holds, Occurrences, Window;
      PushHolds(window[..], history, hash);
      ghost var after := window[..][Slot(windowSize, head) := hash];
      window[Slot(windowSize, head)] := hash;
      assert window[..] == after;
      head := head + 1;
      if size < windowSize {
        size := size + 1;
      }
      history := history + [hash];
      SlotsCountWindow(after, history, hash);
      assert window[..size] == after[..size];
      var count := CountFilled(hash);
      tripped := count >= tripN;
    }
  }

  lemma {:induction false} OccurrencesOfCopies<T>(x: T, n: nat)
    ensures Occurrences(seq(n, _ => x), x) == n
  {
    if n > 0 {
      OccurrencesOfCopies(x, n - 1);
      assert seq(n, _ => x) == seq(n - 1, _ => x) + [x];
    }
  }

  ghost predicate Trips<T(!new)>(history: seq<T>, x: T, windowSize: nat, tripN: nat) {
    Occurrences(Window(history + [x], windowSize), x) >= tripN
  }

  /** Some run of pushes trips the detector exactly when the trip count fits in the window: a larger one
      never trips, whatever has been pushed. */
  lemma TripsIffCountFits<T(!new)>(x: T, windowSize: nat, tripN: nat)
    requires windowSize > 0
    ensures (exists history :: Trips(history, x, windowSize, tripN)) <==> tripN <= windowSize
  {
    forall history: seq<T> ensures Trips(history, x, windowSize, tripN) ==> tripN <= windowSize {
      OccurrencesBound(Window(history + [x], windowSize), x);
    }
    var copies := seq(windowSize - 1, _ => x);
    assert copies + [x] == seq(windowSize, _ => x);
    OccurrencesOfCopies(x, windowSize);
    assert tripN <= windowSize ==> Trips(copies, x, windowSize, tripN);
  }
}
