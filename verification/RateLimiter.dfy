/** A sliding-window rate limiter: at most `count` events in any `duration` seconds. */
module RateLimiter {
  // ---------- one event ----------

  /** The history, newest first, after an event at `now`, and whether the event may proceed. */
  function Check(history: seq<int>, duration: int, now: int): (r: (seq<int>, bool))
    requires history != []
    ensures |r.0| == |history|
  {
    if history[|history| - 1] + duration > now then (history, false)
    else ([now] + history[..|history| - 1], true)
  }

  /** As many entries as the limiter has, in order; what is missing in the file is 0. */
  function Loaded(saved: seq<int>, count: nat): (history: seq<int>)
    ensures |history| == count
  {
    if count <= |saved| then saved[..count] else saved + seq(count - |saved|, _ => 0)
  }

  /** The history file, if there is one: the numbers in it, and whether it can be written. */
  datatype File = NoFile | File(numbers: seq<int>, writable: bool)

  class RateLimiter {
    const duration: int
    const history: array<int>
    var file: File

    ghost predicate Valid() {
      history.Length > 0
    }

    /** Starts with the times in the file, if any; a count or duration of 0 turns limiting off instead. */
    constructor (count: nat, duration: int, file: File)
      requires count > 0 && duration != 0
      ensures Valid() && this.duration == duration && this.file == file && fresh(history)
      ensures history.Length == count
      ensures forall i :: 0 <= i < count ==>
                history[i] == if file.File? && i < |file.numbers| then file.numbers[i] else 0
      ensures history[..] == Loaded(if file.File? then file.numbers else [], count)
    {
      this.duration := duration;
      this.file := file;
      history := new int[count](_ => 0);
      new;
      ghost var saved := if file.File? then file.numbers else [];
      if file.File? {
        for i := 0 to count
          invariant this.file == file && history.Length == count && i <= |saved|
          invariant forall j :: 0 <= j < count ==> history[j] == if j < i then saved[j] else 0
        {
          if i == |file.numbers| {
            history[i] := 0;
            break;
          }
          history[i] := file.numbers[i];
        }
      }
    }

    /** The check with the clock at `now`; an accepted event pushes the oldest time out of the history. */
    method CheckEvent(now: int) returns (accepted: bool)
      requires Valid()
      modifies history, `file
      ensures (history[..], accepted) == Check(old(history[..]), duration, now)
      ensures accepted <==> now - old(history[history.Length - 1]) >= duration
      ensures !accepted ==> history[..] == old(history[..])
      ensures accepted ==> history[0] == now && forall i :: 0 < i < history.Length ==> history[i] == old(history[i - 1])
      ensures file == if accepted && old(file).File? && old(file).writable then File(history[..], true) else old(file)
    {
      var count := history.Length;
      ghost var h := history[..];
      if history[count - 1] + duration > now {
        return false;
      }
      var i := count - 2;
      while i >= 0
        invariant -1 <= i <= count - 2 && file == old(file)
        invariant forall j :: 0 <= j <= i + 1 ==> history[j] == h[j]
        invariant forall j :: i + 1 < j < count ==> history[j] == h[j - 1]
        decreases i
      {
        history[i + 1] := history[i];
        i := i - 1;
      }
      history[0] := now;
      assert history[..] == [now] + h[..count - 1];
      if file.File? && file.writable {
        file := File(history[..], true);
      }
      return true;
    }
  }

  /** A handle of NULL means that there is no limit. */
  method CheckOptional(limiter: RateLimiter?, now: int) returns (accepted: bool)
    requires limiter != null ==> limiter.Valid()
    modifies if limiter == null then {} else {limiter, limiter.history}
    ensures limiter == null ==> accepted
    ensures limiter != null ==> (limiter.history[..], accepted) == Check(old(limiter.history[..]), limiter.duration, now)
  {
    if limiter == null {
      return true;
    }
    accepted := limiter.CheckEvent(now);
  }

  /** Reading back what was saved gives the same history. */
  lemma SavedIsLoaded(history: seq<int>)
    ensures Loaded(history, |history|) == history
  {
  }

  // ---------- runs ----------

  function HistoryAfter(history: seq<int>, duration: int, times: seq<int>): (h: seq<int>)
    requires history != []
    ensures |h| == |history|
    decreases |times|
  {
    if times == [] then history else HistoryAfter(Check(history, duration, times[0]).0, duration, times[1..])
  }

  /** The times accepted, in the order they came. */
  function Accepted(history: seq<int>, duration: int, times: seq<int>): seq<int>
    requires history != []
    decreases |times|
  {
    if times == [] then []
    else
      var (h, ok) := Check(history, duration, times[0]);
      (if ok then [times[0]] else []) + Accepted(h, duration, times[1..])
  }

  function Reverse(s: seq<int>): (r: seq<int>)
    ensures |r| == |s|
  {
    if s == [] then [] else Reverse(s[1..]) + [s[0]]
  }

  /** The history always is the latest accepted times, newest first, followed by what was there before. */
  lemma {:induction false} HistoryIsLatestAccepted(history: seq<int>, duration: int, times: seq<int>)
    requires history != []
    ensures HistoryAfter(history, duration, times)
            == (Reverse(Accepted(history, duration, times)) + history)[..|history|]
    decreases |times|
  {
    if times == [] {
      assert (Reverse([]) + history)[..|history|] == history;
    } else {
      var (h, ok) := Check(history, duration, times[0]);
      var rest := Accepted(h, duration, times[1..]);
      HistoryIsLatestAccepted(h, duration, times[1..]);
      if ok {
        var all := Accepted(history, duration, times);
        assert all == [times[0]] + rest && all[1..] == rest;
        SameStart(Reverse(rest), h, [times[0]] + history, |history|);
        assert Reverse(all) + history == Reverse(rest) + ([times[0]] + history);
      } else {
        assert Accepted(history, duration, times) == rest;
      }
    }
  }

  lemma SameStart(a: seq<int>, b: seq<int>, c: seq<int>, n: nat)
    requires n <= |b| && n <= |c| && b[..n] == c[..n]
    ensures (a + b)[..n] == (a + c)[..n]
  {
    forall i | 0 <= i < n
      ensures (a + b)[i] == (a + c)[i]
    {
      if i >= |a| {
        assert b[..n][i - |a|] == c[..n][i - |a|];
      }
    }
  }

  /** All events so far, oldest first: the initial history and then the accepted ones. */
  function Timeline(history: seq<int>, duration: int, times: seq<int>): seq<int>
    requires history != []
  {
    Reverse(history) + Accepted(history, duration, times)
  }

  lemma AcceptedStep(history: seq<int>, duration: int, times: seq<int>)
    requires history != [] && times != [] && Check(history, duration, times[0]).1
    ensures Accepted(history, duration, times)
            == [times[0]] + Accepted(Check(history, duration, times[0]).0, duration, times[1..])
  {
  }

  lemma {:induction false} ReverseAppend(s: seq<int>, last: int)
    ensures Reverse(s + [last]) == [last] + Reverse(s)
    decreases |s|
  {
    if s == [] {
      assert [last][1..] == [];
    } else {
      assert (s + [last])[1..] == s[1..] + [last];
      ReverseAppend(s[1..], last);
    }
  }

  lemma ReversePrepend(first: int, s: seq<int>)
    ensures Reverse([first] + s) == Reverse(s) + [first]
  {
    assert ([first] + s)[1..] == s;
  }

  lemma ReverseStep(history: seq<int>, now: int)
    requires history != []
    ensures Reverse(history) + [now] == [history[|history| - 1]] + Reverse([now] + history[..|history| - 1])
  {
    hide Reverse;
    var init, last := history[..|history| - 1], history[|history| - 1];
    assert init + [last] == history;
    ReverseAppend(init, last);
    ReversePrepend(now, init);
    Associate([last], Reverse(init), [now]);
  }

  lemma Associate(a: seq<int>, b: seq<int>, c: seq<int>)
    ensures (a + b) + c == a + (b + c)
  {
  }

  lemma TimelineStep(history: seq<int>, duration: int, times: seq<int>)
    requires history != [] && times != [] && Check(history, duration, times[0]).1
    ensures var h := Check(history, duration, times[0]).0;
            Timeline(history, duration, times) == [history[|history| - 1]] + Timeline(h, duration, times[1..])
    ensures Timeline(history, duration, times)[|history|] == times[0]
  {
    hide Accepted, Reverse;
    AcceptedStep(history, duration, times);
    ReverseStep(history, times[0]);
    var h := Check(history, duration, times[0]).0;
    Regroup(Reverse(history), [times[0]], Accepted(h, duration, times[1..]), [history[|history| - 1]], Reverse(h));
  }

  lemma Regroup(a: seq<int>, b: seq<int>, c: seq<int>, d: seq<int>, e: seq<int>)
    requires a + b == d + e
    ensures a + (b + c) == d + (e + c)
  {
    assert a + (b + c) == (a + b) + c;
  }

  /** Any event accepted comes at least `duration` after the one `count` places before it. */
  lemma {:induction false} AcceptedAreSpaced(history: seq<int>, duration: int, times: seq<int>, i: nat)
    requires history != []
    requires i < |Accepted(history, duration, times)|
    ensures Timeline(history, duration, times)[i] + duration <= Timeline(history, duration, times)[i + |history|]
    decreases |times|
  {
    var (h, ok) := Check(history, duration, times[0]);
    if !ok {
      AcceptedAreSpaced(h, duration, times[1..], i);
      assert Accepted(history, duration, times) == Accepted(h, duration, times[1..]);
    } else {
      TimelineStep(history, duration, times);
      if i > 0 {
        hide Reverse, Timeline;
        AcceptedAreSpaced(h, duration, times[1..], i - 1);
      }
    }
  }

  // ---------- what that means for time windows ----------

  predicate Ascending(s: seq<int>) {
    forall i, j :: 0 <= i < j < |s| ==> s[i] <= s[j]
  }

  predicate NewestFirst(s: seq<int>) {
    forall i, j :: 0 <= i < j < |s| ==> s[i] >= s[j]
  }

  /** How many of the times lie in the half-open window from `start` on. */
  function CountIn(times: seq<int>, start: int, duration: int): (n: nat)
    ensures n <= |times|
  {
    if times == [] then 0
    else (if start <= times[0] < start + duration then 1 else 0) + CountIn(times[1..], start, duration)
  }

  /** Accepted times are some of the times offered, in the same order. */
  lemma {:induction false} AcceptedAscend(history: seq<int>, duration: int, times: seq<int>)
    requires history != [] && Ascending(times)
    ensures Ascending(Accepted(history, duration, times))
    ensures forall t :: t in Accepted(history, duration, times) ==> t in times
    decreases |times|
  {
    if times != [] {
      var (h, ok) := Check(history, duration, times[0]);
      AcceptedAscend(h, duration, times[1..]);
      var rest := Accepted(h, duration, times[1..]);
      forall t | t in rest
        ensures times[0] <= t
      {
        var j :| 0 <= j < |times| - 1 && times[1..][j] == t;
        assert times[j + 1] == t;
      }
      var all := Accepted(history, duration, times);
      assert all == if ok then [times[0]] + rest else rest;
      forall i, j | 0 <= i < j < |all|
        ensures all[i] <= all[j]
      {
        if ok && i == 0 {
          assert rest[j - 1] in rest;
        }
      }
    }
  }

  /** Times at or after the window's end do not count. */
  lemma {:induction false} NoneBeyond(s: seq<int>, start: int, duration: int)
    requires forall i :: 0 <= i < |s| ==> s[i] >= start + duration
    ensures CountIn(s, start, duration) == 0
    decreases |s|
  {
    if s != [] {
      NoneBeyond(s[1..], start, duration);
    }
  }

  lemma {:induction false} CountSplits(s: seq<int>, start: int, duration: int, k: nat)
    requires k <= |s|
    ensures CountIn(s, start, duration) == CountIn(s[..k], start, duration) + CountIn(s[k..], start, duration)
    decreases |s|
  {
    if k == 0 {
      assert s[0..] == s;
    } else {
      CountSplits(s[1..], start, duration, k - 1);
      assert s[..k][1..] == s[1..][..k - 1] && s[1..][k - 1..] == s[k..];
    }
  }

  /** In an ascending sequence whose entries `count` apart differ by a whole window, no window holds more than `count`. */
  lemma {:induction false} SpacedTimesFitWindows(s: seq<int>, count: nat, start: int, duration: int)
    requires Ascending(s) && count > 0
    requires forall i :: 0 <= i && i + count < |s| ==> s[i] + duration <= s[i + count]
    ensures CountIn(s, start, duration) <= count
    decreases |s|
  {
    if |s| > count {
      if s[0] < start {
        forall i | 0 <= i && i + count < |s[1..]|
          ensures s[1..][i] + duration <= s[1..][i + count]
        {
          assert s[i + 1] + duration <= s[i + 1 + count];
        }
        SpacedTimesFitWindows(s[1..], count, start, duration);
      } else {
        CountSplits(s, start, duration, count);
        assert s[0] + duration <= s[0 + count];
        NoneBeyond(s[count..], start, duration);
      }
    }
  }

  /** With a clock that never goes back, no half-open window of `duration` seconds holds more than `count` events. */
  lemma NoWindowOverfull(history: seq<int>, duration: int, times: seq<int>, start: int)
    requires history != [] && Ascending(times)
    ensures CountIn(Accepted(history, duration, times), start, duration) <= |history|
  {
    var accepted, n := Accepted(history, duration, times), |history|;
    AcceptedAscend(history, duration, times);
    forall i | 0 <= i && i + n < |accepted|
      ensures accepted[i] + duration <= accepted[i + n]
    {
      AcceptedAreSpaced(history, duration, times, i + n);
      assert Timeline(history, duration, times)[i + n] == accepted[i];
      assert Timeline(history, duration, times)[i + n + n] == accepted[i + n];
    }
    SpacedTimesFitWindows(accepted, n, start, duration);
  }

  /** An event is turned away exactly when all `count` times in a newest-first history are less than `duration` ago. */
  lemma RejectedIffWindowFull(history: seq<int>, duration: int, now: int)
    requires history != [] && NewestFirst(history)
    ensures !Check(history, duration, now).1 <==> forall i :: 0 <= i < |history| ==> now - history[i] < duration
  {
    assert history[|history| - 1] in history;
  }

  /** The history stays newest first as long as the clock does not go back behind it. */
  lemma {:induction false} HistoryStaysSorted(history: seq<int>, duration: int, times: seq<int>)
    requires history != [] && Ascending(times)
    requires NewestFirst(history)
    requires times != [] ==> history[0] <= times[0]
    ensures NewestFirst(HistoryAfter(history, duration, times))
    decreases |times|
  {
    if times != [] {
      var h := Check(history, duration, times[0]).0;
      assert NewestFirst(h);
      assert times[1..] != [] ==> h[0] <= times[1..][0];
      HistoryStaysSorted(h, duration, times[1..]);
    }
  }
}
