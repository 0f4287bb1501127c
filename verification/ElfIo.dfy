/** The streams that core dumps are read from and written to, and the memory of the crashed process. */
module ElfIo {
  import opened Bytes

  // ---------- writing ----------

  /** One answer of `write`: a signal came, it failed, or it took at most so many bytes (none, perhaps). */
  datatype WriteAnswer = WriteInterrupted | WriteError | Takes(n: nat)

  /** Answers as scripted; once the script is used up, everything is taken. */
  class WriteIO {
    var script: seq<WriteAnswer>
    var output: seq<byte>
    const canSync: bool

    ghost predicate Reliable()
      reads this
    {
      WriteError !in script
    }

    /** `rv` is -1 for a failed call, which `interrupted` tells to be worth repeating. */
    method Write(data: seq<byte>) returns (rv: int, interrupted: bool)
      modifies this
      ensures -1 <= rv <= |data|
      ensures output == old(output) + (if rv < 0 then [] else data[..rv])
      ensures if old(script) == [] then script == [] && rv == |data| else script == old(script)[1..]
      ensures rv < 0 && !interrupted <==> old(script) != [] && old(script)[0] == WriteError
    {
      if script == [] {
        output := output + data;
        assert data[..|data|] == data;
        return |data|, false;
      }
      var answer := script[0];
      script := script[1..];
      match answer
      case WriteInterrupted => return -1, true;
      case WriteError => return -1, false;
      case Takes(n) =>
        rv := if n < |data| then n else |data|;
        interrupted := false;
        output := output + data[..rv];
    }

    method Sync() returns (ok: bool)
      ensures ok == canSync
    {
      return canSync;
    }
  }

  /** Nothing but a part of `data`, from its start, has been added. */
  predicate Partly(before: seq<byte>, after: seq<byte>, data: seq<byte>) {
    before <= after <= before + data
  }

  lemma PartlyAll(before: seq<byte>, data: seq<byte>)
    ensures Partly(before, before, data) && Partly(before, before + data, data)
  {
  }

  lemma PartlyMore(before: seq<byte>, after: seq<byte>, sofar: seq<byte>, piece: seq<byte>, rest: seq<byte>, data: seq<byte>)
    requires Partly(before + sofar, after, piece) && data == sofar + piece + rest
    ensures Partly(before, after, data)
  {
    assert before + data == before + sofar + piece + rest;
  }

  /** Writes all of `data`, however the stream splits it up; only a failing call stops it. */
  method IoWriteAll(io: WriteIO, data: seq<byte>) returns (ok: bool)
    modifies io
    ensures ok ==> io.output == old(io.output) + data
    ensures Partly(old(io.output), io.output, data)
    ensures Consumed(old(io.script), io.script, ok)
    ensures old(io.Reliable()) ==> ok && io.Reliable()
  {
    var written := 0;
    NothingConsumed(io.script);
    assert data[..0] == [] && io.output + [] == io.output;
    while written < |data|
      invariant written <= |data|
      invariant io.output == old(io.output) + data[..written]
      invariant Consumed(old(io.script), io.script, true)
      invariant old(io.Reliable()) ==> io.Reliable()
      decreases |io.script|, |data| - written
    {
      ghost var script := io.script;
      var rv, interrupted := io.Write(data[written..]);
      ConsumedOne(old(io.script), script, io.script);
      if rv < 0 {
        assert io.output == old(io.output) + data[..written];
        if interrupted {
          continue;
        }
        PartlyTaken(old(io.output), data, written);
        return false;
      }
      TakenMore(old(io.output), data, written, rv);
      written := written + rv;
    }
    assert data[..|data|] == data;
    PartlyAll(old(io.output), data);
    return true;
  }

  /** The answers used up: none of them a failure, but for the last one if the writing failed. */
  ghost predicate Consumed(before: seq<WriteAnswer>, after: seq<WriteAnswer>, ok: bool) {
    && |after| <= |before| && after == before[|before| - |after|..]
    && (if ok then WriteError !in before[..|before| - |after|]
        else |after| < |before| && before[|before| - |after| - 1] == WriteError
             && WriteError !in before[..|before| - |after| - 1])
  }

  lemma NothingConsumed(script: seq<WriteAnswer>)
    ensures Consumed(script, script, true)
  {
  }

  lemma ConsumedOne(before: seq<WriteAnswer>, script: seq<WriteAnswer>, after: seq<WriteAnswer>)
    requires Consumed(before, script, true)
    requires if script == [] then after == [] else after == script[1..]
    ensures script == [] || script[0] != WriteError ==> Consumed(before, after, true)
    ensures script != [] && script[0] == WriteError ==> Consumed(before, after, false)
  {
    if script != [] {
      var n := |before| - |script|;
      assert before[n] == before[n..][0] == script[0];
      assert before[..n + 1] == before[..n] + [before[n]];
      assert before[n + 1..] == before[n..][1..];
    }
  }

  lemma PartlyTaken(before: seq<byte>, data: seq<byte>, n: nat)
    requires n <= |data|
    ensures Partly(before, before + data[..n], data)
  {
    assert before + data[..n] == (before + data)[..|before| + n];
  }

  lemma TakenMore(before: seq<byte>, data: seq<byte>, n: nat, more: nat)
    requires n + more <= |data|
    ensures before + data[..n] + data[n..][..more] == before + data[..n + more]
  {
    assert data[..n + more] == data[..n] + data[n..][..more];
  }

  // ---------- reading ----------

  /** One answer of `read`: a signal came, it failed, or it gives at most so many bytes. */
  datatype ReadAnswer = ReadInterrupted | ReadError | Gives(n: nat)

  /** A stream that only goes forward: where it is, and the answers to come. Beyond them, reads give all they can. */
  datatype Source = Source(stream: seq<byte>, pos: nat, script: seq<ReadAnswer>)

  predicate IsSource(s: Source) {
    s.pos <= |s.stream|
  }

  /** No call fails, and none gives nothing before the stream's end. */
  predicate IsReliable(s: Source) {
    ReadError !in s.script && Gives(0) !in s.script
  }

  function Min(a: nat, b: nat): nat {
    if a < b then a else b
  }

  /** One call: how many bytes it gives, or -1; then, whether repeating it is worth while; and the stream after it. */
  function ReadOnce(s: Source, size: nat): (r: (int, bool, Source))
    requires IsSource(s)
    ensures -1 <= r.0 <= size && IsSource(r.2) && r.2.stream == s.stream
    ensures r.2.pos == s.pos + (if r.0 < 0 then 0 else r.0)
    ensures if s.script == [] then r.2.script == [] && r.0 >= 0 else r.2.script == s.script[1..]
  {
    var all: int := Min(size, |s.stream| - s.pos);
    if s.script == [] then (all, false, s.(pos := s.pos + all))
    else
      var next := s.(script := s.script[1..]);
      match s.script[0]
      case ReadInterrupted => (-1, true, next)
      case ReadError => (-1, false, next)
      case Gives(n) => var rv: int := Min(n, all); (rv, false, next.(pos := s.pos + rv))
  }

  class ReadIO {
    const stream: seq<byte>
    var pos: nat
    var script: seq<ReadAnswer>

    ghost function Abs(): Source
      reads this
    {
      Source(stream, pos, script)
    }

    ghost predicate Valid()
      reads this
    {
      IsSource(Abs())
    }

    method Read(size: nat) returns (rv: int, interrupted: bool, data: seq<byte>)
      requires Valid()
      modifies this
      ensures Valid() && (rv, interrupted, Abs()) == ReadOnce(old(Abs()), size)
      ensures data == if rv < 0 then [] else stream[old(pos)..pos]
    {
      var r := ReadOnce(Source(stream, pos, script), size);
      data := if r.0 < 0 then [] else stream[pos..pos + r.0];
      rv, interrupted, pos, script := r.0, r.1, r.2.pos, r.2.script;
    }
  }

  // ---------- process memory ----------

  const FILLER: byte := 0xEF
  const COPY_SIZE: nat := 4096

  /** The bytes at each address, and how far each call to copy them gets (nothing, if not positive). */
  datatype Memory = Memory(bytes: nat -> byte, reach: nat -> int)

  function Wrap(address: nat): uint64 {
    address % TWO_TO_THE_64
  }

  function Copied(memory: Memory, address: nat, n: nat): (s: seq<byte>)
    ensures |s| == n
    ensures forall i :: 0 <= i < n ==> s[i] == ByteAt(memory, address + i)
  {
    if n == 0 then [] else Copied(memory, address, n - 1) + [ByteAt(memory, address + n - 1)]
  }

  function ByteAt(memory: Memory, address: nat): byte {
    memory.bytes(Wrap(address))
  }

  /** What one call contributes when `size` bytes are asked for: what it copied, or filler if that is nothing. */
  function Chunk(memory: Memory, address: nat, size: nat, call: nat): (s: seq<byte>)
    ensures size > 0 ==> 0 < |s| <= size
  {
    var n := memory.reach(call);
    if n <= 0 then seq(size, _ => FILLER) else Copied(memory, address, if n < size then n else size)
  }

  /** The bytes of a segment copied piece by piece, and the number of the next call. */
  function LoadData(memory: Memory, address: nat, remaining: nat, call: nat): (r: (seq<byte>, nat))
    ensures |r.0| == remaining
    decreases remaining
  {
    if remaining == 0 then ([], call)
    else
      var chunk := Chunk(memory, address, FirstSize(remaining), call);
      var rest := LoadData(memory, Wrap(address + |chunk|), remaining - |chunk|, call + 1);
      (chunk + rest.0, rest.1)
  }

  lemma ByteAtWrapped(memory: Memory, a: nat, b: nat)
    ensures memory.bytes((Wrap(a) + b) % TWO_TO_THE_64) == memory.bytes((a + b) % TWO_TO_THE_64)
  {
    assert Wrap(Wrap(a) + b) == Wrap(a + b);
  }

  lemma ChunkByte(memory: Memory, address: nat, size: nat, call: nat, i: nat)
    requires i < |Chunk(memory, address, size, call)|
    ensures Chunk(memory, address, size, call)[i] == if memory.reach(call) <= 0 then 0xEF else memory.bytes((address + i) % TWO_TO_THE_64)
  {
    assert ByteAt(memory, address + i) == memory.bytes((address + i) % TWO_TO_THE_64);
  }

  function FirstSize(remaining: nat): nat {
    if remaining < COPY_SIZE then remaining else COPY_SIZE
  }

  /** How many bytes a call contributes when `size` are asked for. */
  function ChunkSize(memory: Memory, size: nat, call: nat): (n: nat)
    ensures size > 0 ==> 0 < n <= size
  {
    if 0 < memory.reach(call) < size then memory.reach(call) else size
  }

  /** The call that the `i`-th byte of a segment falls to gives nothing. Each call asks for 4096 bytes or what is left. */
  predicate InGap(memory: Memory, remaining: nat, call: nat, i: nat)
    requires i < remaining
    decreases remaining
  {
    var asked := Min(remaining, 4096);
    var n := if 0 < memory.reach(call) < asked then memory.reach(call) else asked;
    if i < n then memory.reach(call) <= 0 else InGap(memory, remaining - n, call + 1, i - n)
  }

  /** A segment's bytes are filler where the call that they fall to gives nothing, and memory everywhere else. */
  lemma {:induction false} LoadByte(memory: Memory, address: nat, remaining: nat, call: nat, i: nat)
    requires i < remaining
    ensures LoadData(memory, address, remaining, call).0[i]
            == if InGap(memory, remaining, call, i) then 0xEF else memory.bytes((address + i) % TWO_TO_THE_64)
    decreases remaining
  {
    hide Chunk, ByteAt;
    var chunk := Chunk(memory, address, FirstSize(remaining), call);
    ChunkLength(memory, address, FirstSize(remaining), call);
    if i >= |chunk| {
      LoadByte(memory, Wrap(address + |chunk|), remaining - |chunk|, call + 1, i - |chunk|);
      ByteAtWrapped(memory, address + |chunk|, i - |chunk|);
    } else {
      ChunkByte(memory, address, FirstSize(remaining), call, i);
    }
  }

  lemma ChunkLength(memory: Memory, address: nat, size: nat, call: nat)
    requires size > 0
    ensures |Chunk(memory, address, size, call)| == ChunkSize(memory, size, call)
  {
  }

  lemma {:induction false} NoGap(memory: Memory, remaining: nat, call: nat, i: nat)
    requires i < remaining && forall c: nat :: memory.reach(c) > 0
    ensures !InGap(memory, remaining, call, i)
    decreases remaining
  {
    var n := ChunkSize(memory, Min(remaining, 4096), call);
    if i >= n {
      NoGap(memory, remaining - n, call + 1, i - n);
    }
  }

  /** Nothing is filled in when every call copies something. */
  lemma LoadIsMemory(memory: Memory, address: nat, remaining: nat, call: nat, i: nat)
    requires i < remaining && forall c: nat :: memory.reach(c) > 0
    ensures LoadData(memory, address, remaining, call).0[i] == memory.bytes((address + i) % TWO_TO_THE_64)
  {
    hide LoadData;
    LoadByte(memory, address, remaining, call, i);
    NoGap(memory, remaining, call, i);
  }
}
