/** The availability calculator of `getDoctorAvailability`: every active
    schedule window of the weekday is walked from its start in steps of the
    consultation duration, and a candidate start is offered unless the
    candidate interval overlaps a booked one. Times are minutes since
    midnight. */
module Availability {

  /** One active schedule row for the weekday: `[start, end)`. */
  datatype Window = Window(start: nat, end: nat)

  /** An occupied interval `[start, start + duration)`, as read from a
      non-cancelled appointment. Nothing keeps a stored duration positive, so
      it is an `int`. */
  datatype Booking = Booking(start: nat, duration: int)

  /** One offered slot, as pushed into `availableSlots`. */
  datatype Slot = Slot(time: nat, duration: nat)

  /** The half-open overlap test between `[t, t + d)` and a booking. */
  predicate Overlaps(t: nat, d: int, b: Booking)
  {
    t < b.start + b.duration && t + d > b.start
  }

  /** `occupiedSlots.some(...)`. */
  predicate IsOccupied(t: nat, d: int, booked: seq<Booking>)
  {
    exists i :: 0 <= i < |booked| && Overlaps(t, d, booked[i])
  }

  /** The test is symmetric, and intervals that only touch do not overlap. */
  lemma OverlapFacts(t: nat, d: int, s: nat, e: int)
    ensures Overlaps(t, d, Booking(s, e)) <==> Overlaps(s, e, Booking(t, d))
    ensures t + d == s ==> !Overlaps(t, d, Booking(s, e))
    ensures s + e == t ==> !Overlaps(t, d, Booking(s, e))
  {
  }

  /** `currentTime < endTime`, a comparison of texts. The end is a database
      TIME, `HH:MM:SS`. On the first test the current time is the window's own
      start, also `HH:MM:SS`, so the test is a strict `<`. Afterwards it is an
      `addMinutes` result, `HH:MM`, a proper prefix of any end at the same
      minute; a prefix sorts first, so that candidate still passes. */
  predicate Before(t: nat, fromDb: bool, end: nat)
  {
    t < end || (!fromDb && t == end)
  }

  /** The slots one window yields from candidate start `t` on; `fromDb` says
      whether `t` is still the database's own text. */
  function WindowSlots(t: nat, fromDb: bool, end: nat, d: nat, booked: seq<Booking>): seq<Slot>
    requires d > 0
    decreases if t <= end then end - t + 1 else 0
  {
    if !Before(t, fromDb, end) then []
    else (if IsOccupied(t, d, booked) then [] else [Slot(t, d)]) + WindowSlots(t + d, false, end, d, booked)
  }

  /** The slots of all windows, window after window in row order. */
  function ScheduleSlots(windows: seq<Window>, d: nat, booked: seq<Booking>): seq<Slot>
    requires d > 0
  {
    if windows == [] then []
    else
      var w := windows[|windows| - 1];
      ScheduleSlots(windows[..|windows| - 1], d, booked) + WindowSlots(w.start, true, w.end, d, booked)
  }

  /** The slot loop of `getDoctorAvailability`. `fromDb` tracks the form of
      `currentTime`'s text, which decides the loop test. */
  method GenerateSlots(windows: seq<Window>, d: nat, booked: seq<Booking>) returns (slots: seq<Slot>)
    requires d > 0
    ensures slots == ScheduleSlots(windows, d, booked)
  {
    slots := [];
    for i := 0 to |windows|
      invariant slots == ScheduleSlots(windows[..i], d, booked)
    {
      var w := windows[i];
      var current := w.start;
      var fromDb := true;
      while current < w.end || (!fromDb && current == w.end)
        invariant slots + WindowSlots(current, fromDb, w.end, d, booked)
               == ScheduleSlots(windows[..i], d, booked) + WindowSlots(w.start, true, w.end, d, booked)
        decreases if current <= w.end then w.end - current + 1 else 0
      {
        var occupied := exists k :: 0 <= k < |booked| && Overlaps(current, d, booked[k]);
        if !occupied {
          slots := slots + [Slot(current, d)];
        }
        current := current + d;
        fromDb := false;
      }
      assert windows[..i + 1][..i] == windows[..i];
    }
    assert windows[..|windows|] == windows;
  }

  /** The `k`-th candidate start of a window. */
  function Candidate(w: Window, d: nat, k: nat): nat
  {
    w.start + k * d
  }

  /** `x` is a candidate start from `t` on: on the grid of `d` from `t`, and
      passing the loop test, where only the candidate `t` itself can still be
      the database's text. */
  ghost predicate OnGridFrom(t: nat, fromDb: bool, end: nat, d: nat, x: nat)
  {
    exists k: nat :: Candidate(Window(t, end), d, k) == x && Before(x, fromDb && k == 0, end)
  }

  /** `x` is a candidate start of `w`: the start itself when it is before the
      end, or a later grid point up to and including the end. The slot may run
      past the end. */
  ghost predicate OnGrid(w: Window, d: nat, x: nat)
  {
    OnGridFrom(w.start, true, w.end, d, x)
  }

  lemma {:induction false} WindowSlotsSound(t: nat, fromDb: bool, end: nat, d: nat, booked: seq<Booking>, s: Slot)
    requires d > 0 && s in WindowSlots(t, fromDb, end, d, booked)
    ensures s.duration == d && !IsOccupied(s.time, d, booked)
    ensures OnGridFrom(t, fromDb, end, d, s.time)
    ensures t <= s.time <= end
    decreases if t <= end then end - t + 1 else 0
  {
    var head := if IsOccupied(t, d, booked) then [] else [Slot(t, d)];
    if s in head {
      assert Candidate(Window(t, end), d, 0) == t;
    } else {
      WindowSlotsSound(t + d, false, end, d, booked, s);
      var k: nat :| Candidate(Window(t + d, end), d, k) == s.time && Before(s.time, false, end);
      assert Candidate(Window(t, end), d, k + 1) == s.time by {
        assert (k + 1) * d == k * d + d;
      }
    }
  }

  lemma {:induction false} WindowSlotsComplete(t: nat, fromDb: bool, end: nat, d: nat, booked: seq<Booking>, k: nat)
    requires d > 0 && Before(Candidate(Window(t, end), d, k), fromDb && k == 0, end)
    requires !IsOccupied(Candidate(Window(t, end), d, k), d, booked)
    ensures Slot(Candidate(Window(t, end), d, k), d) in WindowSlots(t, fromDb, end, d, booked)
    decreases k
  {
    if k > 0 {
      assert Candidate(Window(t + d, end), d, k - 1) == Candidate(Window(t, end), d, k) by {
        assert k * d == (k - 1) * d + d;
      }
      assert Before(t, fromDb, end);
      WindowSlotsComplete(t + d, false, end, d, booked, k - 1);
    }
  }

  /** Exactly the free candidate starts of every window are offered, each with
      the consultation duration: a slot is in the result if and only if it has
      duration `d`, overlaps no booking, and lies on the grid of some window. */
  lemma {:induction false} ScheduleSlotsExactly(windows: seq<Window>, d: nat, booked: seq<Booking>, s: Slot)
    requires d > 0
    ensures s in ScheduleSlots(windows, d, booked) <==>
      s.duration == d && !IsOccupied(s.time, d, booked) &&
      exists i :: 0 <= i < |windows| && OnGrid(windows[i], d, s.time)
  {
    if windows != [] {
      var n := |windows| - 1;
      var w := windows[n];
      var front := windows[..n];
      ScheduleSlotsExactly(front, d, booked, s);
      assert forall i :: 0 <= i < n ==> front[i] == windows[i];
      if s in WindowSlots(w.start, true, w.end, d, booked) {
        WindowSlotsSound(w.start, true, w.end, d, booked, s);
        assert w == Window(w.start, w.end);
      }
      if s.duration == d && !IsOccupied(s.time, d, booked) && OnGrid(w, d, s.time) {
        var k: nat :| Candidate(Window(w.start, w.end), d, k) == s.time && Before(s.time, k == 0, w.end);
        WindowSlotsComplete(w.start, true, w.end, d, booked, k);
      }
    }
  }

  /** A candidate start is never before its window's start and never after
      its end; it equals the end only when it is not the start. */
  lemma OnGridBounds(w: Window, d: nat, x: nat)
    requires d > 0 && OnGrid(w, d, x)
    ensures w.start <= x <= w.end && (x == w.end ==> w.start < x)
  {
    var k: nat :| Candidate(Window(w.start, w.end), d, k) == x && Before(x, k == 0, w.end);
  }

  predicate Ascending(slots: seq<Slot>)
  {
    forall i, j :: 0 <= i < j < |slots| ==> slots[i].time < slots[j].time
  }

  /** Within one window, offered start times strictly increase. */
  lemma {:induction false} WindowSlotsAscending(t: nat, fromDb: bool, end: nat, d: nat, booked: seq<Booking>)
    requires d > 0
    ensures Ascending(WindowSlots(t, fromDb, end, d, booked))
    ensures forall s :: s in WindowSlots(t, fromDb, end, d, booked) ==> t <= s.time
    decreases if t <= end then end - t + 1 else 0
  {
    if Before(t, fromDb, end) {
      WindowSlotsAscending(t + d, false, end, d, booked);
      var head := if IsOccupied(t, d, booked) then [] else [Slot(t, d)];
      var rest := WindowSlots(t + d, false, end, d, booked);
      var r := WindowSlots(t, fromDb, end, d, booked);
      assert r == head + rest;
      forall i, j | 0 <= i < j < |r| ensures r[i].time < r[j].time {
        if i >= |head| {
          assert r[i] == rest[i - |head|] && r[j] == rest[j - |head|];
        } else {
          assert |head| == 1 && r[i] == head[i] == Slot(t, d);
          assert r[j] == rest[j - |head|] && rest[j - |head|] in rest;
        }
      }
    }
  }

  /** Windows that overlap yield the shared start times once per window: the
      result is not deduplicated. */
  lemma DuplicatesKept(w: Window, d: nat, booked: seq<Booking>)
    requires d > 0
    ensures ScheduleSlots([w, w], d, booked) == WindowSlots(w.start, true, w.end, d, booked) + WindowSlots(w.start, true, w.end, d, booked)
  {
    assert [w, w][..1] == [w];
    assert [w][..0] == [];
    assert ScheduleSlots([w], d, booked) == [] + WindowSlots(w.start, true, w.end, d, booked);
  }

  /** 08:00-09:00 with 30-minute consultations and no bookings offers 08:00,
      08:30 and also 09:00, where the grid meets the end; with an 08:00
      booking of 30 minutes 08:00 is gone; a window ending at 08:45 offers
      08:00 and 08:30, which runs past its end; a window that starts where it
      ends offers nothing. */
  lemma Scenarios()
    ensures ScheduleSlots([Window(480, 540)], 30, []) == [Slot(480, 30), Slot(510, 30), Slot(540, 30)]
    ensures ScheduleSlots([Window(480, 540)], 30, [Booking(480, 30)]) == [Slot(510, 30), Slot(540, 30)]
    ensures ScheduleSlots([Window(480, 525)], 30, []) == [Slot(480, 30), Slot(510, 30)]
    ensures ScheduleSlots([Window(480, 480)], 30, []) == []
  {
    assert [Window(480, 540)][..0] == [];
    assert [Window(480, 525)][..0] == [];
    assert [Window(480, 480)][..0] == [];
    assert !IsOccupied(510, 30, [Booking(480, 30)]);
    assert !IsOccupied(540, 30, [Booking(480, 30)]);
    assert Overlaps(480, 30, [Booking(480, 30)][0]);
  }
}
