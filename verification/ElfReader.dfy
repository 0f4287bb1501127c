/** Reads a core dump front to back, in whatever pieces the stream hands out. */
module ElfReader {
  import opened Bytes
  import opened ElfIo

  // ---------- what reading gives ----------

  /** The bytes of repeated calls, until `size` are there or a call gives nothing, and the stream after them. */
  function Gathered(s: Source, size: nat): (r: (seq<byte>, Source))
    requires IsSource(s)
    ensures IsSource(r.1) && r.1.stream == s.stream && |r.0| <= size
    ensures r.1.pos == s.pos + |r.0| && r.0 == s.stream[s.pos..r.1.pos]
    decreases |s.script|, size
  {
    if size == 0 then ([], s)
    else
      var (rv, interrupted, next) := ReadOnce(s, size);
      if rv < 0 && interrupted then Gathered(next, size)
      else if rv <= 0 then ([], next)
      else
        var (rest, end) := Gathered(next, size - rv);
        (s.stream[s.pos..next.pos] + rest, end)
  }

  lemma GatherStep(s: Source, size: nat)
    requires IsSource(s)
    ensures Gathered(s, size) ==
            if size == 0 then ([], s)
            else
              var (rv, interrupted, next) := ReadOnce(s, size);
              if rv < 0 && interrupted then Gathered(next, size)
              else if rv <= 0 then ([], next)
              else (s.stream[s.pos..next.pos] + Gathered(next, size - rv).0, Gathered(next, size - rv).1)
  {
    hide ReadOnce;
  }

  /** The bytes at `at`: none if the stream has already passed them or ends before. */
  function SegmentRead(s: Source, at: nat, size: nat): (r: (seq<byte>, Source))
    requires IsSource(s)
    ensures IsSource(r.1) && r.1.stream == s.stream && |r.0| <= size && s.pos <= r.1.pos
    ensures r.0 != [] ==> at + |r.0| <= |s.stream| && r.0 == s.stream[at..at + |r.0|]
  {
    if at < s.pos then ([], s)
    else
      var (skipped, there) := Gathered(s, at - s.pos);
      if |skipped| < at - s.pos then ([], there) else Gathered(there, size)
  }

  /** However a reliable stream splits its bytes up, what is gathered is the stream's next `size` bytes. */
  lemma {:induction false} SplittingDoesNotMatter(s: Source, size: nat)
    requires IsSource(s) && IsReliable(s)
    ensures var (data, next) := Gathered(s, size);
            data == s.stream[s.pos..s.pos + Min(size, |s.stream| - s.pos)] && IsReliable(next)
    decreases |s.script|, size
  {
    if size > 0 {
      var (rv, interrupted, next) := ReadOnce(s, size);
      OnceReliable(s, size);
      if rv < 0 {
        SplittingDoesNotMatter(next, size);
      } else if rv > 0 {
        SplittingDoesNotMatter(next, size - rv);
      }
    }
  }

  lemma OnceReliable(s: Source, size: nat)
    requires IsSource(s) && IsReliable(s) && size > 0
    ensures var (rv, interrupted, next) := ReadOnce(s, size);
            IsReliable(next) && (rv < 0 ==> interrupted) && (rv == 0 ==> s.pos == |s.stream|)
  {
    if s.script != [] {
      assert s.script[0] in s.script;
    }
  }

  /** How many bytes these answers give. */
  function Given(script: seq<ReadAnswer>): nat {
    if script == [] then 0
    else (match script[0] case Gives(n) => n case _ => 0) + Given(script[1..])
  }

  predicate GoesOn(answer: ReadAnswer) {
    answer != ReadError && answer != Gives(0)
  }

  /**
   * A stream that answers so and then fails, or gives nothing, before all is read: what is gathered is what came
   * before that, and the answers after it are still to come.
   */
  lemma {:induction false} FailureStops(s: Source, size: nat, before: seq<ReadAnswer>, answer: ReadAnswer,
                                        after: seq<ReadAnswer>)
    requires IsSource(s) && s.script == before + [answer] + after
    requires forall a :: a in before ==> GoesOn(a)
    requires !GoesOn(answer)
    requires Given(before) < size && Given(before) < |s.stream| - s.pos
    ensures Gathered(s, size)
            == (s.stream[s.pos..s.pos + Given(before)], Source(s.stream, s.pos + Given(before), after))
    decreases |before|
  {
    hide Gathered, GoesOn, ReadOnce, Given;
    if before == [] {
      assert s.script[0] == answer && s.script[1..] == after;
      FailureNow(s, size);
      GivenStep(before);
    } else {
      assert s.script[0] == before[0] && s.script[1..] == before[1..] + [answer] + after;
      GivenStep(before);
      GoesOnOnce(s, size);
      var n := if before[0].Gives? then before[0].n else 0;
      var next := Source(s.stream, s.pos + n, s.script[1..]);
      FailureStops(next, size - n, before[1..], answer, after);
    }
  }

  lemma GivenStep(script: seq<ReadAnswer>)
    ensures Given(script) == if script == [] then 0
                             else (if script[0].Gives? then script[0].n else 0) + Given(script[1..])
  {
  }

  lemma FailureNow(s: Source, size: nat)
    requires IsSource(s) && s.script != [] && !GoesOn(s.script[0]) && size > 0
    ensures Gathered(s, size) == ([], Source(s.stream, s.pos, s.script[1..]))
  {
  }

  lemma GoesOnOnce(s: Source, size: nat)
    requires IsSource(s) && s.script != [] && GoesOn(s.script[0])
    requires var n := if s.script[0].Gives? then s.script[0].n else 0; n < size && n <= |s.stream| - s.pos
    ensures var n := if s.script[0].Gives? then s.script[0].n else 0;
            Gathered(s, size).1 == Gathered(Source(s.stream, s.pos + n, s.script[1..]), size - n).1
  {
    GatherStep(s, size);
    hide Gathered;
  }

  /** A segment in a stream that has come to `pos`, and where the stream is after reading it. */
  function SegmentData(stream: seq<byte>, pos: nat, at: nat, size: nat): (r: (seq<byte>, nat))
    requires pos <= |stream|
    ensures |r.0| <= size && pos <= r.1 <= |stream|
  {
    if at < pos then ([], pos)
    else if at > |stream| then ([], |stream|)
    else (stream[at..Min(at + size, |stream|)], Min(at + size, |stream|))
  }

  /** Exactly the bytes that are there, for every reliable stream. */
  lemma SegmentIsThere(s: Source, at: nat, size: nat)
    requires IsSource(s) && IsReliable(s)
    ensures var (data, next) := SegmentRead(s, at, size);
            (data, next.pos) == SegmentData(s.stream, s.pos, at, size) && IsReliable(next)
  {
    hide IsReliable;
    if at >= s.pos {
      SplittingDoesNotMatter(s, at - s.pos);
      var (skipped, there) := Gathered(s, at - s.pos);
      if |skipped| == at - s.pos {
        SplittingDoesNotMatter(there, size);
      }
    }
  }

  // ---------- the reader ----------

  class Reader {
    const io: ReadIO
    var streamPos: nat

    ghost predicate Valid()
      reads this, io
    {
      io.Valid() && streamPos == io.pos
    }

    constructor (io: ReadIO)
      requires io.Valid() && io.pos == 0
      ensures this.io == io && Valid() && streamPos == 0
    {
      this.io := io;
      streamPos := 0;
    }

    /** Reads on until it has `size` bytes, or the stream ends or fails. */
    method ReadAll(size: nat) returns (data: seq<byte>)
      requires Valid()
      modifies this, io
      ensures Valid() && (data, io.Abs()) == Gathered(old(io.Abs()), size)
      ensures streamPos == old(streamPos) + |data|
    {
      hide ReadOnce, Gathered;
      data := [];
      ghost var all := Gathered(io.Abs(), size);
      assert all.0 == data + all.0;
      while |data| < size
        invariant Valid() && |data| <= size
        invariant streamPos == old(streamPos) + |data|
        invariant var (rest, end) := Gathered(io.Abs(), size - |data|);
                  all == (data + rest, end)
        decreases |io.script|, size - |data|
      {
        GatherStep(io.Abs(), size - |data|);
        ghost var before, rest := data, Gathered(io.Abs(), size - |data|).0;
        assert before + [] == before;
        var rv, interrupted, piece := io.Read(size - |data|);
        if rv == -1 {
          if interrupted {
            continue;
          }
          break;
        }
        streamPos := streamPos + rv;
        data := data + piece;
        if rv == 0 {
          break;
        }
        assert before + rest == data + rest[rv..];
      }
      GatherStep(io.Abs(), 0);
      assert data + [] == data;
    }

    method ReadSegmentData(at: nat, size: nat) returns (data: seq<byte>)
      requires Valid()
      modifies this, io
      ensures Valid() && (data, io.Abs()) == SegmentRead(old(io.Abs()), at, size)
    {
      if at < streamPos {
        return [];
      }
      var skipSize := at - streamPos;
      if skipSize > 0 {
        var skipped := ReadAll(skipSize);
        if |skipped| < skipSize {
          return [];
        }
      }
      data := ReadAll(size);
    }
  }
}
