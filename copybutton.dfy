/**
 * The copy button of every `CodeBlock`: a click hands the code to the clipboard, sets the
 * `copied` flag at once and schedules its own reset 2000 ms later. Earlier resets are never
 * cancelled, so with overlapping clicks the flag drops at the earliest pending deadline.
 * Time is a clock moved on explicitly by `Advance`, which fires every reset that has fallen due.
 */
module CopyButton {

  /** The delay of `setTimeout(() => setCopied(false), 2000)`, in milliseconds. */
  const ResetDelay: int := 2000

  /** The flag, the deadlines of the scheduled resets that have not fired, and the current time. */
  datatype CopyState = CopyState(copied: bool, pending: seq<int>, clock: int)

  predicate Sorted(xs: seq<int>) {
    forall i, j :: 0 <= i < j < |xs| ==> xs[i] <= xs[j]
  }

  /**
   * The states reachable from a fresh button: deadlines in scheduling order, each within one
   * delay of the current time, and a raised flag always has a reset still to come.
   */
  predicate Valid(s: CopyState) {
    && Sorted(s.pending)
    && (forall d :: d in s.pending ==> s.clock < d <= s.clock + ResetDelay)
    && (s.copied ==> s.pending != [])
  }

  /** A button that was never clicked, at time `clock`. */
  function Initial(clock: int): (s: CopyState)
    ensures Valid(s) && !s.copied && s.pending == []
  {
    CopyState(false, [], clock)
  }

  /** `handleCopy` at the current time: raise the flag and schedule one more reset; nothing is cancelled. */
  function Click(s: CopyState): (r: CopyState)
    ensures r.copied && r.clock == s.clock
    ensures r.pending == s.pending + [s.clock + ResetDelay]
  {
    CopyState(true, s.pending + [s.clock + ResetDelay], s.clock)
  }

  /** Whether some pending reset is due at time `now`. */
  function AnyDue(pending: seq<int>, now: int): (b: bool)
    ensures b <==> exists d :: d in pending && d <= now
    decreases |pending|
  {
    if pending == [] then false
    else
      assert forall d :: d in pending <==> d == pending[0] || d in pending[1..];
      assert pending[0] in pending;
      pending[0] <= now || AnyDue(pending[1..], now)
  }

  /** The deadlines that are still in the future at time `now`, in their order. */
  function Remaining(pending: seq<int>, now: int): (r: seq<int>)
    ensures forall d :: d in r <==> d in pending && now < d
    ensures Sorted(pending) ==> Sorted(r)
    decreases |pending|
  {
    if pending == [] then []
    else
      var rest := Remaining(pending[1..], now);
      var r := (if now < pending[0] then [pending[0]] else []) + rest;
      assert forall d :: d in pending <==> d == pending[0] || d in pending[1..];
      assert Sorted(pending) ==> Sorted(r) by {
        if Sorted(pending) {
          assert Sorted(pending[1..]);
          assert forall d :: d in pending[1..] ==> pending[0] <= d;
          SortedCons(pending[0], rest);
        }
      }
      r
  }

  /** A sequence stays sorted when an element no larger than any of its own is put in front. */
  lemma SortedCons(h: int, xs: seq<int>)
    requires Sorted(xs) && forall d :: d in xs ==> h <= d
    ensures Sorted([h] + xs)
  {
    var ys := [h] + xs;
    forall i, j | 0 <= i < j < |ys|
      ensures ys[i] <= ys[j]
    {
      if i == 0 {
        assert ys[j] == xs[j - 1];
        assert xs[j - 1] in xs;
      }
    }
  }

  /** Time advances to `now` and every reset due by then fires, each one clearing the flag. */
  function Advance(s: CopyState, now: int): (r: CopyState)
    requires s.clock <= now
    ensures r.copied <==> s.copied && forall d :: d in s.pending ==> now < d
    ensures forall d :: d in r.pending <==> d in s.pending && now < d
    ensures r.clock == now
  {
    CopyState(s.copied && !AnyDue(s.pending, now), Remaining(s.pending, now), now)
  }

  /** A click keeps the state valid: the new deadline is the latest one. */
  lemma ClickValid(s: CopyState)
    requires Valid(s)
    ensures Valid(Click(s))
  {
    var p := Click(s).pending;
    forall i, j | 0 <= i < j < |p|
      ensures p[i] <= p[j]
    {
      if j == |p| - 1 {
        assert p[i] in s.pending;
      }
    }
  }

  /** Advancing time keeps the state valid. */
  lemma AdvanceValid(s: CopyState, now: int)
    requires Valid(s) && s.clock <= now
    ensures Valid(Advance(s, now))
  {
    var r := Advance(s, now);
    if r.copied {
      assert s.pending[0] in s.pending;
      assert s.pending[0] in r.pending;
    }
  }

  /** In a valid state the first pending deadline is the earliest. */
  lemma FirstIsEarliest(s: CopyState)
    requires Valid(s) && s.pending != []
    ensures forall d :: d in s.pending ==> s.pending[0] <= d
  {
  }

  /** A raised flag stays raised exactly until the earliest pending deadline. */
  lemma ResetAtEarliestDeadline(s: CopyState, now: int)
    requires Valid(s) && s.copied && s.clock <= now
    ensures Advance(s, now).copied <==> now < s.pending[0]
  {
    FirstIsEarliest(s);
    if Advance(s, now).copied {
      assert s.pending[0] in s.pending;
    }
  }

  /** A click with no reset pending shows the acknowledgement for exactly the delay. */
  lemma LoneClickLastsTheDelay(s: CopyState, now: int)
    requires Valid(s) && s.pending == [] && s.clock <= now
    ensures Advance(Click(s), now).copied <==> now < s.clock + ResetDelay
  {
    ClickValid(s);
    ResetAtEarliestDeadline(Click(s), now);
  }

  /**
   * A second click does not extend the acknowledgement: after clicks at `t` and at `t + gap`,
   * the flag is already down at `t + 2000`, only `2000 - gap` after the last click, with the
   * second reset still pending. (Clicks at 0 and 1000 leave it down at 2000.)
   */
  lemma OverlappingClicksShortenAcknowledgement(s: CopyState, gap: int, s1: CopyState, s2: CopyState)
    requires s.pending == [] && 0 < gap < ResetDelay
    requires s1 == Advance(Click(s), s.clock + gap)
    requires s2 == Advance(Click(s1), s.clock + ResetDelay)
    ensures s1.copied && Click(s1).pending == [s.clock + ResetDelay, s.clock + gap + ResetDelay]
    ensures !s2.copied && s2.pending == [s.clock + gap + ResetDelay]
  {
    FirstClickStillShown(s, gap);
    SecondResetStillPending(s1, s.clock, gap);
  }

  /** Before its deadline, a lone click's flag is still up and its reset still pending. */
  lemma FirstClickStillShown(s: CopyState, gap: int)
    requires s.pending == [] && 0 <= gap < ResetDelay
    ensures Advance(Click(s), s.clock + gap) == CopyState(true, [s.clock + ResetDelay], s.clock + gap)
  {
    AdvanceSorted(Click(s), s.clock + gap, 0);
  }

  /** Clicking again at `t + gap` and reaching the first deadline drops the flag and keeps the second reset. */
  lemma SecondResetStillPending(s1: CopyState, t: int, gap: int)
    requires s1 == CopyState(true, [t + ResetDelay], t + gap) && 0 < gap < ResetDelay
    ensures Click(s1).pending == [t + ResetDelay, t + gap + ResetDelay]
    ensures Advance(Click(s1), t + ResetDelay) == CopyState(false, [t + gap + ResetDelay], t + ResetDelay)
  {
    var c1 := Click(s1);
    assert c1.pending == [t + ResetDelay, t + gap + ResetDelay];
    AdvanceSorted(c1, t + ResetDelay, 1);
  }

  /** On sorted deadlines, advancing past the first `i` of them fires exactly those. */
  lemma AdvanceSorted(s: CopyState, now: int, i: int)
    requires Sorted(s.pending) && s.clock <= now && 0 <= i <= |s.pending|
    requires forall k :: 0 <= k < i ==> s.pending[k] <= now
    requires i == |s.pending| || now < s.pending[i]
    ensures Advance(s, now) == CopyState(s.copied && i == 0, s.pending[i..], now)
  {
    RemainingOfSorted(s.pending, now, i);
  }

  /** `{copied ? 'Copied!' : 'Copy'}`. */
  function Label(copied: bool): (r: string)
    ensures r == "Copied!" <==> copied
    ensures r == "Copy" <==> !copied
  {
    if copied then "Copied!" else "Copy"
  }

  /** One `CodeBlock`'s copy state, with the texts handed to the clipboard stub, in order. */
  class CodeBlock {
    const code: string
    var copied: bool
    var pending: seq<int>
    var clock: int
    var clipboard: seq<string>

    function State(): CopyState
      reads this
    {
      CopyState(copied, pending, clock)
    }

    /** `useState(false)` at time `clock`. */
    constructor(code: string, clock: int)
      ensures Valid(State())
      ensures this.code == code && State() == Initial(clock) && clipboard == []
    {
      this.code := code;
      copied := false;
      pending := [];
      this.clock := clock;
      clipboard := [];
    }

    /** `handleCopy`: the write's promise is not awaited, so the flag rises whether it resolves or rejects. */
    method HandleCopy()
      requires Valid(State())
      modifies this
      ensures Valid(State())
      ensures State() == Click(old(State()))
      ensures clipboard == old(clipboard) + [code]
    {
      clipboard := clipboard + [code];
      copied := true;
      pending := pending + [clock + ResetDelay];
      ClickValid(old(State()));
    }

    /** The event loop reaches time `now`, running each due reset callback in deadline order. */
    method Tick(now: int)
      requires Valid(State()) && clock <= now
      modifies this
      ensures Valid(State())
      ensures State() == Advance(old(State()), now)
      ensures clipboard == old(clipboard)
    {
      ghost var s := State();
      AdvanceValid(s, now);
      var i := 0;
      while i < |pending| && pending[i] <= now
        invariant 0 <= i <= |pending|
        invariant pending == s.pending && clock == s.clock
        invariant forall k :: 0 <= k < i ==> pending[k] <= now
        invariant copied == (s.copied && i == 0)
        invariant clipboard == old(clipboard)
      {
        copied := false;
        i := i + 1;
      }
      RemainingOfSorted(pending, now, i);
      pending := pending[i..];
      clock := now;
    }

    /** The button's text. */
    function ButtonLabel(): (r: string)
      reads this
      ensures r == "Copied!" <==> copied
    {
      Label(copied)
    }
  }

  /** On sorted deadlines, those still in the future are the suffix after the due ones. */
  lemma {:induction false} RemainingOfSorted(pending: seq<int>, now: int, i: int)
    requires Sorted(pending) && 0 <= i <= |pending|
    requires forall k :: 0 <= k < i ==> pending[k] <= now
    requires i == |pending| || now < pending[i]
    ensures Remaining(pending, now) == pending[i..]
    ensures AnyDue(pending, now) <==> i > 0
    decreases |pending|
  {
    if pending != [] {
      var tail := pending[1..];
      assert pending == [pending[0]] + tail;
      assert Sorted(tail);
      if i == 0 {
        assert forall k :: 0 <= k < |tail| ==> now < tail[k] by {
          assert forall k :: 0 <= k < |tail| ==> pending[0] <= tail[k];
        }
        RemainingOfSorted(tail, now, 0);
      } else {
        RemainingOfSorted(tail, now, i - 1);
        assert pending[i..] == tail[i - 1..];
      }
    }
  }

}
