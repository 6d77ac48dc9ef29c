/** Following an event feed that can only be polled as a whole: what gets printed, and how often it polls. */
module Follow {

  datatype AuditEvent = AuditEvent(id: string, timestamp: int)

  /** The last event printed; `zero` until one has been. */
  datatype Watermark = Watermark(id: string, ts: int, zero: bool)

  /** One poll of the feed: an error, or the snapshot it returned. */
  datatype Poll = PollError | Snapshot(events: seq<AuditEvent>)

  function NewestWatermark(events: seq<AuditEvent>): Watermark {
    if events == [] then Watermark("", 0, true)
    else Watermark(events[|events| - 1].id, events[|events| - 1].timestamp, false)
  }

  /** `f` cannot be told from `e`: the same id, or the same time when `e` has no id. */
  predicate TakenFor(e: AuditEvent, f: AuditEvent) {
    if e.id != "" then f.id == e.id else f.timestamp == e.timestamp
  }

  predicate Matches(e: AuditEvent, wm: Watermark) {
    if wm.id != "" then e.id == wm.id else e.timestamp == wm.ts
  }

  /** What follows the watermark in the snapshot; the whole snapshot when the watermark is not in it. */
  function EventsAfter(events: seq<AuditEvent>, wm: Watermark): seq<AuditEvent> {
    if wm.zero then events else AfterMatch(events, events, wm)
  }

  function AfterMatch(all: seq<AuditEvent>, rest: seq<AuditEvent>, wm: Watermark): seq<AuditEvent> {
    if rest == [] then all
    else if Matches(rest[0], wm) then rest[1..]
    else AfterMatch(all, rest[1..], wm)
  }

  /** The search for the watermark as it runs. */
  method FindAfter(events: seq<AuditEvent>, wm: Watermark) returns (r: seq<AuditEvent>)
    ensures r == EventsAfter(events, wm)
  {
    if wm.zero {
      return events;
    }
    for i := 0 to |events|
      invariant AfterMatch(events, events, wm) == AfterMatch(events, events[i..], wm)
    {
      assert events[i..][1..] == events[i + 1..];
      if Matches(events[i], wm) {
        return events[i + 1..];
      }
    }
    r := events;
  }

  /** The watermark's event is the first one that cannot be told from it. */
  predicate IsMark(events: seq<AuditEvent>, wm: Watermark, i: int) {
    && 0 <= i < |events| && TakenFor(AuditEvent(wm.id, wm.ts), events[i])
    && forall j | 0 <= j < i :: !TakenFor(AuditEvent(wm.id, wm.ts), events[j])
  }

  lemma {:induction false} AfterMatchMeaning(events: seq<AuditEvent>, wm: Watermark, k: nat)
    requires k <= |events| && forall j | 0 <= j < k :: !TakenFor(AuditEvent(wm.id, wm.ts), events[j])
    ensures var r := AfterMatch(events, events[k..], wm);
            if exists i :: IsMark(events, wm, i) then exists i :: IsMark(events, wm, i) && r == events[i + 1..] else r == events
    decreases |events| - k
  {
    if k < |events| {
      assert events[k..][1..] == events[k + 1..];
      if TakenFor(AuditEvent(wm.id, wm.ts), events[k]) {
        assert IsMark(events, wm, k);
      } else {
        AfterMatchMeaning(events, wm, k + 1);
      }
    }
  }

  /** What is newer than the watermark in any snapshot: what follows the first event taken for it, the whole
      snapshot when there is none or when nothing has been printed yet. */
  lemma EventsAfterMeaning(events: seq<AuditEvent>, wm: Watermark)
    ensures var r := EventsAfter(events, wm);
            if !wm.zero && exists i :: IsMark(events, wm, i) then exists i :: IsMark(events, wm, i) && r == events[i + 1..]
            else r == events
  {
    hide AfterMatch;
    assert events[0..] == events;
    AfterMatchMeaning(events, wm, 0);
  }

  function NextInterval(cur: nat, max: nat): nat {
    if cur * 2 > max then max else cur * 2
  }

  datatype Tail = Tail(printed: seq<AuditEvent>, wm: Watermark, interval: nat)

  function FollowStep(t: Tail, p: Poll, start: nat, max: nat): Tail {
    match p
    case PollError => t.(interval := NextInterval(t.interval, max))
    case Snapshot(events) =>
      var newer := EventsAfter(events, t.wm);
      if newer != [] then Tail(t.printed + newer, NewestWatermark(events), start)
      else t.(interval := NextInterval(t.interval, max))
  }

  function FollowAll(first: seq<AuditEvent>, polls: seq<Poll>, start: nat, max: nat): Tail {
    if polls == [] then Tail(first, NewestWatermark(first), start)
    else FollowStep(FollowAll(first, polls[..|polls| - 1], start, max), polls[|polls| - 1], start, max)
  }

  /** The follow loop: print the first snapshot, then what each poll adds, backing off while idle. The
      polls that happen before the context is cancelled are `polls`. */
  method TailEvents(first: seq<AuditEvent>, polls: seq<Poll>, start: nat, max: nat) returns (printed: seq<AuditEvent>, interval: nat)
    ensures printed == FollowAll(first, polls, start, max).printed
    ensures interval == FollowAll(first, polls, start, max).interval
  {
    printed := first;
    var watermark := NewestWatermark(first);
    interval := start;
    for i := 0 to |polls|
      invariant FollowAll(first, polls[..i], start, max) == Tail(printed, watermark, interval)
    {
      assert polls[..i + 1][..i] == polls[..i];
      match polls[i] {
        case PollError =>
          interval := NextInterval(interval, max);
        case Snapshot(events) =>
          var newer := FindAfter(events, watermark);
          if |newer| > 0 {
            printed := printed + newer;
            watermark := NewestWatermark(events);
            interval := start;
          } else {
            interval := NextInterval(interval, max);
          }
      }
    }
    assert polls[..|polls|] == polls;
  }

  // ---------- the feed ----------

  /** The whole history of the feed: no event is taken for another. `Window(a, b)` is what a poll saw of it. */
  predicate History(h: seq<AuditEvent>) {
    forall i, j | 0 <= i < |h| && 0 <= j < |h| && i != j :: !TakenFor(h[i], h[j])
  }

  datatype Seen = Error | Window(a: nat, b: nat)

  predicate Shows(s: Seen) {
    s.Window? && s.a < s.b
  }

  predicate InHistory(h: seq<AuditEvent>, s: Seen) {
    s.Window? ==> s.a <= s.b <= |h|
  }

  function PollOf(h: seq<AuditEvent>, s: Seen): Poll
    requires InHistory(h, s)
  {
    match s
    case Error => PollError
    case Window(a, b) => Snapshot(h[a..b])
  }

  function PollsOf(h: seq<AuditEvent>, seen: seq<Seen>): (polls: seq<Poll>)
    requires forall i | 0 <= i < |seen| :: InHistory(h, seen[i])
    ensures |polls| == |seen|
  {
    seq(|seen|, i requires 0 <= i < |seen| => PollOf(h, seen[i]))
  }

  // ---------- what gets printed, as positions in the history ----------

  /** End of the last non-empty snapshot that printed anything: the position after the watermark. */
  datatype Cursor = Cursor(printed: seq<nat>, next: nat)

  function Range(a: nat, b: nat): (r: seq<nat>)
    requires a <= b
    ensures |r| == b - a
  {
    seq(b - a, i => a + i)
  }

  /** One snapshot, in positions: print from the cursor when the watermark is in sight, else print all. */
  function SeeWindow(c: Cursor, s: Seen): Cursor
    requires s.Window? ==> s.a <= s.b
  {
    if s.Error? || s.a == s.b then c
    else if s.a < c.next <= s.b then
      if c.next == s.b then c else Cursor(c.printed + Range(c.next, s.b), s.b)
    else Cursor(c.printed + Range(s.a, s.b), s.b)
  }

  function SeeAll(seen: seq<Seen>): Cursor
    requires forall i | 0 <= i < |seen| && seen[i].Window? :: seen[i].a <= seen[i].b
  {
    if seen == [] then Cursor([], 0)
    else SeeWindow(SeeAll(seen[..|seen| - 1]), seen[|seen| - 1])
  }

  function EventsAt(h: seq<AuditEvent>, ps: seq<nat>): (es: seq<AuditEvent>)
    requires forall i | 0 <= i < |ps| :: ps[i] < |h|
    ensures |es| == |ps|
  {
    seq(|ps|, i requires 0 <= i < |ps| => h[ps[i]])
  }

  /** The follower's state is the cursor's: it has printed those positions and its watermark is the event
      just before the cursor. */
  ghost predicate Refines(h: seq<AuditEvent>, t: Tail, c: Cursor) {
    && c.next <= |h|
    && (forall i | 0 <= i < |c.printed| :: c.printed[i] < |h|)
    && t.printed == EventsAt(h, c.printed)
    && t.wm.zero == (c.next == 0)
    && (c.next > 0 ==> t.wm.id == h[c.next - 1].id && t.wm.ts == h[c.next - 1].timestamp)
  }

  lemma {:induction false} AfterMatchIn(h: seq<AuditEvent>, all: seq<AuditEvent>, a: nat, b: nat, wm: Watermark, k: nat)
    requires History(h) && a <= b <= |h| && !wm.zero && 0 < k <= |h| && wm.id == h[k - 1].id && wm.ts == h[k - 1].timestamp
    ensures AfterMatch(all, h[a..b], wm) == if a < k <= b then h[k..b] else all
    decreases b - a
  {
    if a < b {
      assert h[a..b][1..] == h[a + 1..b];
      if a != k - 1 {
        AfterMatchIn(h, all, a + 1, b, wm, k);
      }
    }
  }

  lemma EventsAtGrow(h: seq<AuditEvent>, ps: seq<nat>, a: nat, b: nat)
    requires a <= b <= |h| && forall i | 0 <= i < |ps| :: ps[i] < |h|
    ensures forall i | 0 <= i < |ps + Range(a, b)| :: (ps + Range(a, b))[i] < |h|
    ensures EventsAt(h, ps + Range(a, b)) == EventsAt(h, ps) + h[a..b]
  {
  }

  /** What a poll adds: the snapshot from the cursor on when the watermark is in it, else all of it. */
  lemma EventsAfterCursor(h: seq<AuditEvent>, t: Tail, c: Cursor, a: nat, b: nat)
    requires History(h) && a < b <= |h| && Refines(h, t, c)
    ensures EventsAfter(h[a..b], t.wm) == if a < c.next <= b then h[c.next..b] else h[a..b]
  {
    if c.next > 0 {
      AfterMatchIn(h, h[a..b], a, b, t.wm, c.next);
    }
  }

  lemma StepRefines(h: seq<AuditEvent>, t: Tail, c: Cursor, s: Seen, start: nat, max: nat)
    requires History(h) && InHistory(h, s) && Refines(h, t, c)
    ensures Refines(h, FollowStep(t, PollOf(h, s), start, max), SeeWindow(c, s))
  {
    if Shows(s) {
      EventsAfterCursor(h, t, c, s.a, s.b);
      var from := if s.a < c.next <= s.b then c.next else s.a;
      EventsAtGrow(h, c.printed, from, s.b);
      assert NewestWatermark(h[s.a..s.b]) == Watermark(h[s.b - 1].id, h[s.b - 1].timestamp, false);
      hide EventsAfter, AfterMatch, History, EventsAt, NewestWatermark;
    } else if s.Window? {
      assert h[s.a..s.b] == [];
    }
  }

  /** Before anything is printed the follower is at the start. */
  lemma NothingPrinted(h: seq<AuditEvent>, start: nat)
    ensures Refines(h, Tail([], NewestWatermark([]), start), Cursor([], 0))
  {
    assert EventsAt(h, []) == [];
  }

  /** Printing the first snapshot is a step from the start, whatever the interval. */
  lemma FirstIsAStep(events: seq<AuditEvent>, start: nat, max: nat)
    ensures var t := FollowStep(Tail([], NewestWatermark([]), start), Snapshot(events), start, max);
            FollowAll(events, [], start, max) == Tail(t.printed, t.wm, start)
  {
    assert [] + events == events;
  }

  lemma RefinesAnyInterval(h: seq<AuditEvent>, t: Tail, c: Cursor, start: nat)
    requires Refines(h, t, c)
    ensures Refines(h, Tail(t.printed, t.wm, start), c)
  {
    hide EventsAt;
  }

  lemma FirstRefines(h: seq<AuditEvent>, seen: seq<Seen>, start: nat, max: nat)
    requires History(h) && |seen| == 1 && seen[0].Window? && InHistory(h, seen[0])
    ensures Refines(h, FollowAll(h[seen[0].a..seen[0].b], PollsOf(h, seen[1..]), start, max), SeeAll(seen))
  {
    hide Refines, FollowStep, NewestWatermark, SeeWindow, History;
    var t := Tail([], NewestWatermark([]), start);
    var events := h[seen[0].a..seen[0].b];
    assert seen[..0] == [] && PollsOf(h, seen[1..]) == [];
    NothingPrinted(h, start);
    StepRefines(h, t, Cursor([], 0), seen[0], start, max);
    FirstIsAStep(events, start, max);
    RefinesAnyInterval(h, FollowStep(t, Snapshot(events), start, max), SeeWindow(Cursor([], 0), seen[0]), start);
  }

  /** The follower prints exactly the cursor's positions, on every feed. The first snapshot is `seen[0]`. */
  lemma {:induction false} FollowRefines(h: seq<AuditEvent>, seen: seq<Seen>, start: nat, max: nat)
    requires History(h) && forall i | 0 <= i < |seen| :: InHistory(h, seen[i])
    requires seen != [] && seen[0].Window? && InHistory(h, seen[0])
    ensures Refines(h, FollowAll(h[seen[0].a..seen[0].b], PollsOf(h, seen[1..]), start, max), SeeAll(seen))
  {
    var k := |seen| - 1;
    if k == 0 {
      FirstRefines(h, seen, start, max);
    } else {
      var first, polls := h[seen[0].a..seen[0].b], PollsOf(h, seen[1..]);
      FollowRefines(h, seen[..k], start, max);
      assert seen[..k][1..] == seen[1..][..k - 1];
      assert polls[..k - 1] == PollsOf(h, seen[..k][1..]);
      assert polls[k - 1] == PollOf(h, seen[k]);
      StepRefines(h, FollowAll(first, polls[..k - 1], start, max), SeeAll(seen[..k]), seen[k], start, max);
      hide Refines, History, FollowStep, SeeWindow, NewestWatermark, EventsAt, PollOf, PollsOf;
    }
  }

  // ---------- exactly once ----------

  predicate Increasing(ps: seq<nat>) {
    forall i, j | 0 <= i < j < |ps| :: ps[i] < ps[j]
  }

  predicate ShowsAt(s: Seen, p: nat) {
    s.Window? && s.a <= p < s.b
  }

  predicate WellFormed(seen: seq<Seen>) {
    forall i | 0 <= i < |seen| && seen[i].Window? :: seen[i].a <= seen[i].b
  }

  /** Non-empty snapshots never end earlier than a previous one did. */
  predicate EndsGrow(seen: seq<Seen>) {
    forall i, j | 0 <= i < j < |seen| && Shows(seen[i]) && Shows(seen[j]) :: seen[i].b <= seen[j].b
  }

  /** Non-empty snapshots never start earlier than a previous one did: a feed that only ages out. */
  predicate StartsGrow(seen: seq<Seen>) {
    forall i, j | 0 <= i < j < |seen| && Shows(seen[i]) && Shows(seen[j]) :: seen[i].a <= seen[j].a
  }

  ghost predicate SeenBefore(seen: seq<Seen>, j: nat, p: nat)
    requires j <= |seen|
  {
    exists i :: 0 <= i < j && ShowsAt(seen[i], p)
  }

  ghost predicate PastAllEnds(seen: seq<Seen>, j: nat, p: nat)
    requires j <= |seen|
  {
    forall i | 0 <= i < j && Shows(seen[i]) :: seen[i].b <= p
  }

  /** No poll shows, for the first time, an event older than one an earlier poll already showed. */
  ghost predicate NothingSurfacesLate(seen: seq<Seen>) {
    forall j, p | 0 <= j < |seen| && ShowsAt(seen[j], p) :: SeenBefore(seen, j, p) || PastAllEnds(seen, j, p)
  }

  /** Every position any poll returned is among `ps`, and nothing else is. */
  ghost predicate ExactlyTheSeen(seen: seq<Seen>, ps: seq<nat>) {
    && (forall p: nat | SeenBefore(seen, |seen|, p) :: p in ps)
    && (forall p: nat | p in ps :: SeenBefore(seen, |seen|, p))
  }

  lemma SeenInPrefix(seen: seq<Seen>, k: nat, j: nat, p: nat)
    requires j <= k <= |seen|
    ensures SeenBefore(seen[..k], j, p) <==> SeenBefore(seen, j, p)
  {
    assert forall i | 0 <= i < k :: ShowsAt(seen[..k][i], p) <==> ShowsAt(seen[i], p);
  }

  /** On every feed: the cursor follows the last printed position and the last non-empty snapshot's end,
      and only what some poll returned is printed. */
  lemma {:induction false} CursorFollows(seen: seq<Seen>)
    requires WellFormed(seen)
    ensures var c := SeeAll(seen);
            && (c.next == 0 <==> c.printed == [])
            && (c.next > 0 ==> c.printed[|c.printed| - 1] == c.next - 1)
            && (c.next == 0 <==> forall i | 0 <= i < |seen| :: !Shows(seen[i]))
            && (seen != [] && Shows(seen[|seen| - 1]) ==> c.next == seen[|seen| - 1].b)
            && (c.next > 0 ==> exists i :: 0 <= i < |seen| && Shows(seen[i]) && seen[i].b == c.next)
            && (forall p: nat | p in c.printed :: SeenBefore(seen, |seen|, p))
  {
    if seen != [] {
      var k := |seen| - 1;
      var before, s := seen[..k], seen[k];
      CursorFollows(before);
      var c, d := SeeAll(before), SeeAll(seen);
      assert forall i | 0 <= i < k :: before[i] == seen[i];
      forall p: nat | p in d.printed ensures SeenBefore(seen, |seen|, p) {
        if p in c.printed {
          var i :| 0 <= i < k && ShowsAt(before[i], p);
          assert ShowsAt(seen[i], p);
        } else {
          assert ShowsAt(seen[k], p);
        }
      }
      if Shows(s) {
        assert seen[k].b == d.next;
      } else {
        assert d == c;
      }
    }
  }

  /** One more snapshot that ends no earlier keeps the printed positions increasing; one that ends
      earlier breaks the order. */
  lemma {:induction false} StepOrder(c: Cursor, s: Seen)
    requires s.Window? ==> s.a <= s.b
    requires Increasing(c.printed) && (c.next == 0 <==> c.printed == [])
    requires c.next > 0 ==> c.printed[|c.printed| - 1] == c.next - 1
    ensures Increasing(SeeWindow(c, s).printed) <==> (Shows(s) ==> c.next <= s.b)
  {
    var d := SeeWindow(c, s);
    if Shows(s) && s.b < c.next {
      assert d.printed[|c.printed|] == s.a;
      assert d.printed[|c.printed| - 1] == c.next - 1;
    } else if c.printed != [] {
      assert forall i | 0 <= i < |c.printed| :: c.printed[i] <= c.printed[|c.printed| - 1];
    }
  }

  lemma PrintedGrows(c: Cursor, s: Seen)
    requires s.Window? ==> s.a <= s.b
    ensures c.printed <= SeeWindow(c, s).printed
  {
  }

  lemma {:induction false} EndsGrowStep(seen: seq<Seen>)
    requires WellFormed(seen) && seen != []
    ensures var k := |seen| - 1;
            EndsGrow(seen) <==> EndsGrow(seen[..k]) && (Shows(seen[k]) ==> SeeAll(seen[..k]).next <= seen[k].b)
  {
    var k := |seen| - 1;
    var before := seen[..k];
    assert forall i | 0 <= i < k :: before[i] == seen[i];
    CursorFollows(before);
    if EndsGrow(before) && Shows(seen[k]) && SeeAll(before).next <= seen[k].b {
      EndsBelowCursor(before);
    }
  }

  /** While ends grow, the cursor is the furthest end. */
  lemma {:induction false} EndsBelowCursor(seen: seq<Seen>)
    requires WellFormed(seen) && EndsGrow(seen)
    ensures forall i | 0 <= i < |seen| && Shows(seen[i]) :: seen[i].b <= SeeAll(seen).next
  {
    if seen != [] {
      var k := |seen| - 1;
      assert forall i | 0 <= i < k :: seen[..k][i] == seen[i];
      EndsBelowCursor(seen[..k]);
      CursorFollows(seen);
    }
  }

  /** The output is in history order without duplicates exactly when no non-empty snapshot ends earlier
      than one before it. */
  lemma {:induction false} InOrderIffEndsGrow(seen: seq<Seen>)
    requires WellFormed(seen)
    ensures Increasing(SeeAll(seen).printed) <==> EndsGrow(seen)
  {
    if seen != [] {
      var k := |seen| - 1;
      var before := seen[..k];
      InOrderIffEndsGrow(before);
      CursorFollows(before);
      EndsGrowStep(seen);
      PrintedGrows(SeeAll(before), seen[k]);
      if Increasing(SeeAll(before).printed) {
        StepOrder(SeeAll(before), seen[k]);
      } else {
        var ps := SeeAll(before).printed;
        var i, j :| 0 <= i < j < |ps| && ps[i] >= ps[j];
        assert SeeAll(seen).printed[i] == ps[i] && SeeAll(seen).printed[j] == ps[j];
      }
    }
  }

  /** While ends grow, a new snapshot prints exactly its positions from the cursor on. */
  lemma {:induction false} StepPrints(c: Cursor, s: Seen, p: nat)
    requires (s.Window? ==> s.a <= s.b) && (Shows(s) ==> c.next <= s.b)
    ensures p in SeeWindow(c, s).printed <==> p in c.printed || (ShowsAt(s, p) && p >= c.next)
  {
    if ShowsAt(s, p) && p >= c.next {
      if s.a < c.next {
        assert Range(c.next, s.b)[p - c.next] == p;
      } else {
        assert Range(s.a, s.b)[p - s.a] == p;
      }
    }
  }

  lemma {:induction false} SurfacesStep(seen: seq<Seen>)
    requires seen != []
    ensures NothingSurfacesLate(seen) ==> NothingSurfacesLate(seen[..|seen| - 1])
  {
    var k := |seen| - 1;
    var before := seen[..k];
    assert forall i | 0 <= i < k :: before[i] == seen[i];
    if NothingSurfacesLate(seen) {
      forall j, p | 0 <= j < k && ShowsAt(before[j], p)
        ensures SeenBefore(before, j, p) || PastAllEnds(before, j, p)
      {
        assert ShowsAt(seen[j], p);
        SeenInPrefix(seen, k, j, p);
      }
    }
  }

  /** Everything returned by some poll is printed when nothing surfaces late. */
  lemma {:induction false} PrintsAllSeen(seen: seq<Seen>, p: nat)
    requires WellFormed(seen) && EndsGrow(seen) && NothingSurfacesLate(seen) && SeenBefore(seen, |seen|, p)
    ensures p in SeeAll(seen).printed
  {
    var k := |seen| - 1;
    var before := seen[..k];
    assert forall i | 0 <= i < k :: before[i] == seen[i];
    EndsGrowStep(seen);
    SurfacesStep(seen);
    StepPrints(SeeAll(before), seen[k], p);
    SeenInPrefix(seen, k, k, p);
    if SeenBefore(seen, k, p) {
      PrintsAllSeen(before, p);
    } else {
      assert ShowsAt(seen[k], p) && PastAllEnds(seen, k, p);
      CursorFollows(before);
    }
  }

  /** What was below the cursor and unprinted stays unprinted while ends grow. */
  lemma {:induction false} LateStaysUnprinted(seen: seq<Seen>, j: nat, p: nat)
    requires WellFormed(seen) && EndsGrow(seen) && j <= |seen|
    requires p < SeeAll(seen[..j]).next && p !in SeeAll(seen[..j]).printed
    ensures p < SeeAll(seen).next && p !in SeeAll(seen).printed
  {
    if j == |seen| {
      assert seen[..j] == seen;
    } else {
      var k := |seen| - 1;
      assert seen[..k][..j] == seen[..j];
      EndsGrowStep(seen);
      LateStaysUnprinted(seen[..k], j, p);
      StepPrints(SeeAll(seen[..k]), seen[k], p);
    }
  }

  /** In order and complete: given that ends grow, exactly what the polls returned is printed if and only if
      nothing surfaces late. */
  lemma {:induction false} CompleteIffNothingSurfacesLate(seen: seq<Seen>)
    requires WellFormed(seen) && EndsGrow(seen)
    ensures ExactlyTheSeen(seen, SeeAll(seen).printed) <==> NothingSurfacesLate(seen)
  {
    CursorFollows(seen);
    if NothingSurfacesLate(seen) {
      forall p: nat | SeenBefore(seen, |seen|, p) ensures p in SeeAll(seen).printed {
        PrintsAllSeen(seen, p);
      }
    } else {
      var j, p :| 0 <= j < |seen| && ShowsAt(seen[j], p) && !SeenBefore(seen, j, p) && !PastAllEnds(seen, j, p);
      var before := seen[..j];
      assert forall i | 0 <= i < j :: before[i] == seen[i];
      CursorFollows(before);
      EndsBelowCursor(before);
      SeenInPrefix(seen, j, j, p);
      LateStaysUnprinted(seen, j, p);
      assert SeenBefore(seen, |seen|, p);
    }
  }

  /** A feed whose snapshots only move forward never surfaces an event late. */
  lemma ForwardFeedsSurfaceNothingLate(seen: seq<Seen>)
    requires StartsGrow(seen)
    ensures NothingSurfacesLate(seen)
  {
    forall j, p | 0 <= j < |seen| && ShowsAt(seen[j], p) && !SeenBefore(seen, j, p)
      ensures PastAllEnds(seen, j, p)
    {
      forall i | 0 <= i < j && Shows(seen[i]) ensures seen[i].b <= p {
        assert !ShowsAt(seen[i], p);
      }
    }
  }

  /** Ends that grow are not enough: on every history of eight events or more, a follower that first sees
      only the sixth and then the first eight never prints the first. */
  lemma LateEventIsLost(h: seq<AuditEvent>, start: nat, max: nat)
    requires History(h) && |h| >= 8
    ensures EndsGrow([Window(5, 6), Window(0, 8)])
    ensures FollowAll(h[5..6], [Snapshot(h[0..8])], start, max).printed == h[5..8] && h[0] !in h[5..8]
  {
    var polls := [Snapshot(h[0..8])];
    assert polls[..0] == [] && h[0..8] == h[..8];
    AfterMatchIn(h, h[0..8], 0, 8, NewestWatermark(h[5..6]), 6);
    assert h[5..6] + h[6..8] == h[5..8];
  }

  /** Such a history exists. */
  lemma EightEvents() returns (h: seq<AuditEvent>)
    ensures History(h) && |h| == 8
  {
    h := seq(8, i requires 0 <= i < 8 => AuditEvent(["abcdefgh"[i]], i));
    assert forall i | 0 <= i < 8 :: h[i].id[0] == "abcdefgh"[i];
  }

  /** Exactly once: when ends grow and nothing surfaces late, the output is every event any poll returned,
      in history order, none of them twice. A feed whose snapshots only move forward is such a feed. */
  lemma {:induction false} PrintsExactlyOnce(h: seq<AuditEvent>, seen: seq<Seen>, start: nat, max: nat)
    requires History(h) && forall i | 0 <= i < |seen| :: InHistory(h, seen[i])
    requires seen != [] && seen[0].Window? && InHistory(h, seen[0]) && EndsGrow(seen) && NothingSurfacesLate(seen)
    ensures var printed := FollowAll(h[seen[0].a..seen[0].b], PollsOf(h, seen[1..]), start, max).printed;
            && (forall i, j | 0 <= i < j < |printed| :: !TakenFor(printed[i], printed[j]) && !TakenFor(printed[j], printed[i]))
            && (exists ps :: Increasing(ps) && ExactlyTheSeen(seen, ps)
                             && (forall i | 0 <= i < |ps| :: ps[i] < |h|) && printed == EventsAt(h, ps))
  {
    FollowRefines(h, seen, start, max);
    InOrderIffEndsGrow(seen);
    CompleteIffNothingSurfacesLate(seen);
    var ps := SeeAll(seen).printed;
    assert Increasing(ps) && ExactlyTheSeen(seen, ps);
  }

  /** The poll interval never exceeds the cap when it starts within it, whatever the polls return. */
  lemma {:induction false} IntervalWithinCap(first: seq<AuditEvent>, polls: seq<Poll>, start: nat, max: nat)
    ensures FollowAll(first, polls, start, max).interval <= max || FollowAll(first, polls, start, max).interval == start
    ensures start <= max ==> start <= FollowAll(first, polls, start, max).interval <= max
  {
    if polls != [] {
      IntervalWithinCap(first, polls[..|polls| - 1], start, max);
    }
  }

  function Pow2(k: nat): (p: nat)
    ensures p >= 1
  {
    if k == 0 then 1 else 2 * Pow2(k - 1)
  }

  /** A poll that prints something resets the interval; one that prints nothing leaves the watermark alone. */
  lemma NewsResets(first: seq<AuditEvent>, polls: seq<Poll>, start: nat, max: nat)
    requires polls != []
    ensures var before := FollowAll(first, polls[..|polls| - 1], start, max);
            var after := FollowAll(first, polls, start, max);
            if |after.printed| > |before.printed| then after.interval == start
            else after.printed == before.printed && after.wm == before.wm
  {
  }

  function Doubled(start: nat, k: nat, max: nat): nat {
    if start * Pow2(k) > max then max else start * Pow2(k)
  }

  lemma DoubledOnce(start: nat, k: nat, max: nat)
    ensures NextInterval(if k == 0 then start else Doubled(start, k, max), max) == Doubled(start, k + 1, max)
  {
    var x := start * Pow2(k);
    assert start * Pow2(k + 1) == 2 * x by {
      assert Pow2(k + 1) == 2 * Pow2(k);
      Twice(start, Pow2(k));
    }
    assert k == 0 ==> x == start;
  }

  lemma Twice(a: nat, b: nat)
    ensures a * (2 * b) == 2 * (a * b)
  {
  }

  lemma IdlePoll(first: seq<AuditEvent>, polls: seq<Poll>, start: nat, max: nat)
    requires polls != []
    ensures var before := FollowAll(first, polls[..|polls| - 1], start, max);
            var after := FollowAll(first, polls, start, max);
            |after.printed| == |before.printed| ==> after.interval == NextInterval(before.interval, max)
  {
    hide EventsAfter, NewestWatermark, NextInterval;
  }

  /** Back-off: `k` polls in a row that print nothing double the interval `k` times, up to the cap. */
  lemma {:induction false} IdleDoubles(first: seq<AuditEvent>, polls: seq<Poll>, n: nat, start: nat, max: nat)
    requires n < |polls| && FollowAll(first, polls[..n], start, max).interval == start
    requires FollowAll(first, polls, start, max).printed == FollowAll(first, polls[..n], start, max).printed
    ensures FollowAll(first, polls, start, max).interval == Doubled(start, |polls| - n, max)
    decreases |polls|
  {
    hide FollowAll, Doubled, NextInterval;
    var k := |polls| - 1;
    assert polls[..k][..n] == polls[..n];
    PrintedOnlyGrows(first, polls[..k], n, start, max);
    PrintedOnlyGrows(first, polls, k, start, max);
    IdlePoll(first, polls, start, max);
    DoubledOnce(start, k - n, max);
    if n < k {
      IdleDoubles(first, polls[..k], n, start, max);
    }
  }

  lemma {:induction false} PrintedOnlyGrows(first: seq<AuditEvent>, polls: seq<Poll>, n: nat, start: nat, max: nat)
    requires n <= |polls|
    ensures FollowAll(first, polls[..n], start, max).printed <= FollowAll(first, polls, start, max).printed
    decreases |polls|
  {
    if n == |polls| {
      assert polls[..n] == polls;
    } else {
      var k := |polls| - 1;
      assert polls[..k][..n] == polls[..n];
      PrintedOnlyGrows(first, polls[..k], n, start, max);
    }
  }
}
