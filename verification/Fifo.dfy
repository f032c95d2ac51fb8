/** The ring buffer of libetk: free-running unsigned indices that wrap at 32 bits. */
module RingBuffer {
  import opened Common
  import opened Bits

  type byte = bv8

  predicate LegalSize(size: nat) { size < WORD && IsPowerOfTwo(size) }

  /** `__fifo_off`. */
  function Offset(size: nat, index: nat): nat
    requires size > 0
  {
    BitAnd(index, size - 1)
  }

  /** The masked, wrapped index is the running byte number modulo the size. */
  lemma OffsetIsRemainder(size: nat, n: nat)
    requires LegalSize(size)
    ensures Offset(size, n % WORD) == n % size
  {
    var k := FindExponent(size);
    WordIsPow();
    MaskIsRemainder(n % WORD, k);
    if k > 32 { Pow2Add(k - 32, 32); }
    WrapKeepsRemainder(n, k, 32);
  }

  /** Wrapped indices differ by the true distance as long as it fits a word. */
  lemma DistanceSurvivesWrap(a: nat, b: nat)
    requires a <= b < a + WORD
    ensures (b % WORD - a % WORD) % WORD == b - a
  {
    var qa, qb := a / WORD, b / WORD;
    assert b % WORD - a % WORD == (b - a) - (qb - qa) * WORD;
    assert qa <= qb <= qa + 1;
  }

  /** Adding to a remainder wraps at most once. */
  lemma RemainderStep(x: nat, d: nat, m: nat)
    requires m > 0 && d <= m
    ensures (x + d) % m == if x % m + d < m then x % m + d else x % m + d - m
  {
    var q, r := x / m, x % m;
    MulAdd(q, 1, m);
    if r + d < m { RemainderUnique(x + d, m, q, r + d); } else { RemainderUnique(x + d, m, q + 1, r + d - m); }
  }

  // ----- one reader and one writer without a lock -----

  /** Where `fifo_in` is: not called, or copying `chunk` with `done` bytes already in the buffer. */
  datatype Writer = WriterIdle | Writing(chunk: seq<byte>, done: nat)

  /** Where `fifo_out` is: not called, or copying `len` bytes of which `got` are already out. */
  datatype Reader = ReaderIdle | Reading(len: nat, got: seq<byte>)

  /** The shared structure, the two threads, and the history of all published and all returned bytes. */
  datatype State = State(
    size: nat, buffer: seq<byte>, inp: nat, out: nat,
    writer: Writer, reader: Reader,
    accepted: seq<byte>, delivered: seq<byte>)

  datatype Step =
    | StartWrite(from: seq<byte>)
    | CopyIn
    | PublishIn
    | StartRead(want: nat)
    | CopyOut
    | PublishOut

  /** `fifo_len` and `fifo_avail` on unsigned indices. */
  function Length(s: State): nat { (s.inp - s.out) % WORD }

  function Available(s: State): nat { (s.size - Length(s)) % WORD }

  function Least(a: nat, b: nat): nat { if a < b then a else b }

  /** The address of byte `k` of a copy of `len` bytes that starts at `index`: the part up to the end of
      the buffer first, the rest from its beginning. */
  function SplitAddress(size: nat, index: nat, len: nat, k: nat): nat
    requires size > 0 && index < WORD
  {
    var off := Offset(size, index);
    var l := Least(len, if off < size then size - off else 0);
    if k < l then off + k else k - l
  }

  predicate Sized(s: State) { LegalSize(s.size) && |s.buffer| == s.size && s.inp < WORD && s.out < WORD }

  predicate Enabled(s: State, step: Step) {
    match step
    case StartWrite(_) => s.writer.WriterIdle?
    case CopyIn => s.writer.Writing? && s.writer.done < |s.writer.chunk|
    case PublishIn => s.writer.Writing? && s.writer.done == |s.writer.chunk|
    case StartRead(_) => s.reader.ReaderIdle?
    case CopyOut => s.reader.Reading? && |s.reader.got| < s.reader.len
    case PublishOut => s.reader.Reading? && |s.reader.got| == s.reader.len
  }

  function WriteAddress(s: State): nat
    requires Sized(s) && Enabled(s, CopyIn)
  {
    SplitAddress(s.size, s.inp, |s.writer.chunk|, s.writer.done)
  }

  function ReadAddress(s: State): nat
    requires Sized(s) && Enabled(s, CopyOut)
  {
    SplitAddress(s.size, s.out, s.reader.len, |s.reader.got|)
  }

  /** One step of one of the two threads; a step that is not enabled changes nothing. */
  function Next(s: State, step: Step): State
    requires Sized(s)
  {
    if !Enabled(s, step) then s
    else match step
      case StartWrite(from) => s.(writer := Writing(from[..Least(Available(s), |from|)], 0))
      case CopyIn =>
        var a := WriteAddress(s);
        s.(buffer := if a < s.size then s.buffer[a := s.writer.chunk[s.writer.done]] else s.buffer,
           writer := s.writer.(done := s.writer.done + 1))
      case PublishIn =>
        s.(inp := (s.inp + |s.writer.chunk|) % WORD, writer := WriterIdle, accepted := s.accepted + s.writer.chunk)
      case StartRead(want) => s.(reader := Reading(Least(Length(s), want), []))
      case CopyOut =>
        var a := ReadAddress(s);
        s.(reader := s.reader.(got := s.reader.got + [if a < s.size then s.buffer[a] else 0]))
      case PublishOut =>
        s.(out := (s.out + s.reader.len) % WORD, reader := ReaderIdle, delivered := s.delivered + s.reader.got)
  }

  /** Any interleaving of the two threads. */
  function Run(s: State, steps: seq<Step>): State
    requires Sized(s)
  {
    if steps == [] then s else
      var r := Run(s, steps[..|steps| - 1]);
      if Sized(r) then Next(r, steps[|steps| - 1]) else r
  }

  function Start(size: nat, buffer: seq<byte>): State {
    State(size, buffer, 0, 0, WriterIdle, ReaderIdle, [], [])
  }

  // ----- the invariant -----

  /** The place of byte number `k`. */
  function Slot(size: nat, k: nat): (r: nat)
    requires size > 0
    ensures r < size
  {
    k % size
  }

  ghost predicate IndicesRight(s: State) {
    && s.inp == |s.accepted| % WORD && s.out == |s.delivered| % WORD
    && |s.delivered| <= |s.accepted| <= |s.delivered| + s.size
    && s.delivered == s.accepted[..|s.delivered|]
  }

  /** Published and not yet returned bytes are in their places. */
  ghost predicate UnreadInPlace(s: State)
    requires Sized(s)
  {
    forall k | |s.delivered| <= k < |s.accepted| :: s.buffer[Slot(s.size, k)] == s.accepted[k]
  }

  ghost predicate WriterRight(s: State)
    requires Sized(s)
  {
    s.writer.Writing? ==>
      && s.writer.done <= |s.writer.chunk|
      && |s.accepted| + |s.writer.chunk| <= |s.delivered| + s.size
      && forall j | 0 <= j < s.writer.done :: s.buffer[Slot(s.size, |s.accepted| + j)] == s.writer.chunk[j]
  }

  ghost predicate ReaderRight(s: State) {
    s.reader.Reading? ==>
      && |s.reader.got| <= s.reader.len
      && |s.delivered| + s.reader.len <= |s.accepted|
      && s.reader.got == s.accepted[|s.delivered|..|s.delivered| + |s.reader.got|]
  }

  ghost predicate Inv(s: State) {
    Sized(s) && IndicesRight(s) && UnreadInPlace(s) && WriterRight(s) && ReaderRight(s)
  }

  /** The split copy visits consecutive byte numbers modulo the size. */
  lemma SplitAddressIsRemainder(size: nat, n: nat, len: nat, k: nat)
    requires LegalSize(size) && k < len <= size
    ensures SplitAddress(size, n % WORD, len, k) == Slot(size, n + k)
  {
    OffsetIsRemainder(size, n);
    RemainderStep(n, k, size);
  }

  lemma LengthIsTrue(s: State)
    requires Sized(s) && IndicesRight(s)
    ensures Length(s) == |s.accepted| - |s.delivered|
    ensures Available(s) == s.size - (|s.accepted| - |s.delivered|)
  {
    DistanceSurvivesWrap(|s.delivered|, |s.accepted|);
  }

  /** The writer only ever writes places that hold no unread byte. */
  lemma WriteIsSafe(s: State)
    requires Inv(s) && Enabled(s, CopyIn)
    ensures WriteAddress(s) == Slot(s.size, |s.accepted| + s.writer.done)
    ensures forall k | |s.delivered| <= k < |s.accepted| + s.writer.done :: Slot(s.size, k) != WriteAddress(s)
  {
    var n := |s.accepted| + s.writer.done;
    SplitAddressIsRemainder(s.size, |s.accepted|, |s.writer.chunk|, s.writer.done);
    forall k | |s.delivered| <= k < n ensures Slot(s.size, k) != Slot(s.size, n) {
      WindowDistinct(k, n, s.size);
    }
  }

  /** The reader only ever reads places that hold a published byte, the next one in order. */
  lemma ReadIsSafe(s: State)
    requires Inv(s) && Enabled(s, CopyOut)
    ensures ReadAddress(s) < s.size
    ensures var k := |s.delivered| + |s.reader.got|; k < |s.accepted| && s.buffer[ReadAddress(s)] == s.accepted[k]
  {
    SplitAddressIsRemainder(s.size, |s.delivered|, s.reader.len, |s.reader.got|);
  }

  // ----- every step keeps the invariant -----

  /** Bytes in other places stay. */
  lemma StillThere(buffer: seq<byte>, a: nat, x: byte, lo: nat, data: seq<byte>)
    requires a < |buffer|
    requires forall j | 0 <= j < |data| :: Slot(|buffer|, lo + j) != a && buffer[Slot(|buffer|, lo + j)] == data[j]
    ensures forall j | 0 <= j < |data| :: buffer[a := x][Slot(|buffer|, lo + j)] == data[j]
  {}

  /** A byte copied to the place behind those already there. */
  lemma CopiedAt(s: State, a: nat)
    requires Inv(s) && Enabled(s, CopyIn) && a == Slot(s.size, |s.accepted| + s.writer.done)
    requires forall k | |s.delivered| <= k < |s.accepted| + s.writer.done :: Slot(s.size, k) != a
    ensures Inv(s.(buffer := s.buffer[a := s.writer.chunk[s.writer.done]], writer := s.writer.(done := s.writer.done + 1)))
  {
    var x, n := s.writer.chunk[s.writer.done], s.writer.done;
    StillThere(s.buffer, a, x, |s.accepted|, s.writer.chunk[..n]);
    var b := s.buffer[a := x];
    forall j | 0 <= j < n + 1 ensures b[Slot(s.size, |s.accepted| + j)] == s.writer.chunk[j] {
      assert j < n ==> s.writer.chunk[..n][j] == s.writer.chunk[j];
    }
  }

  lemma CopyInKeeps(s: State)
    requires Inv(s) && Enabled(s, CopyIn)
    ensures Inv(Next(s, CopyIn))
  {
    WriteIsSafe(s);
    CopiedAt(s, WriteAddress(s));
  }

  lemma PublishInKeeps(s: State)
    requires Inv(s) && Enabled(s, PublishIn)
    ensures Inv(Next(s, PublishIn))
  {
    var t := Next(s, PublishIn);
    var n, c := |s.accepted|, s.writer.chunk;
    ModAdd(n, |c|);
    forall k | |t.delivered| <= k < |t.accepted|
      ensures t.buffer[Slot(t.size, k)] == t.accepted[k]
    {
      if k >= n { assert s.buffer[Slot(s.size, n + (k - n))] == c[k - n]; }
    }
    if t.reader.Reading? {
      assert t.accepted[|t.delivered|..|t.delivered| + |t.reader.got|]
          == s.accepted[|s.delivered|..|s.delivered| + |s.reader.got|];
    }
  }

  lemma ModAdd(n: nat, d: nat)
    ensures (n % WORD + d) % WORD == (n + d) % WORD
  {}

  lemma CopyOutKeeps(s: State)
    requires Inv(s) && Enabled(s, CopyOut)
    ensures Inv(Next(s, CopyOut))
  {
    ReadIsSafe(s);
  }

  lemma PublishOutKeeps(s: State)
    requires Inv(s) && Enabled(s, PublishOut)
    ensures Inv(Next(s, PublishOut))
  {
    ModAdd(|s.delivered|, s.reader.len);
  }

  lemma StepKeeps(s: State, step: Step)
    requires Inv(s)
    ensures Inv(Next(s, step))
  {
    if Enabled(s, step) {
      match step
      case StartWrite(_) => LengthIsTrue(s);
      case CopyIn => CopyInKeeps(s);
      case PublishIn => PublishInKeeps(s);
      case StartRead(_) => LengthIsTrue(s);
      case CopyOut => CopyOutKeeps(s);
      case PublishOut => PublishOutKeeps(s);
    }
  }

  lemma {:induction false} RunKeeps(s: State, steps: seq<Step>)
    requires Inv(s)
    ensures Inv(Run(s, steps))
  {
    if steps != [] {
      var n := |steps| - 1;
      RunKeeps(s, steps[..n]);
      StepKeeps(Run(s, steps[..n]), steps[n]);
    }
  }

  lemma StartInv(size: nat, buffer: seq<byte>)
    requires LegalSize(size) && |buffer| == size
    ensures Inv(Start(size, buffer))
  {}

  /** What has been returned, with what is about to be returned, is a prefix of what was accepted. */
  lemma InvPrefix(s: State)
    requires Inv(s)
    ensures s.delivered <= s.accepted
    ensures s.reader.Reading? ==> s.delivered + s.reader.got <= s.accepted
  {}

  // ----- how much a call moves -----

  /** The bytes of `from` that fit behind the unread ones. */
  function Fitting(s: State, from: seq<byte>): seq<byte>
    requires |s.delivered| <= |s.accepted| <= |s.delivered| + s.size
  {
    var free := s.size - (|s.accepted| - |s.delivered|);
    if free < |from| then from[..free] else from
  }

  /** The next `want` unread bytes, or all there are. */
  function Unread(s: State, want: nat): seq<byte>
    requires |s.delivered| <= |s.accepted|
  {
    var unread := s.accepted[|s.delivered|..];
    if want < |unread| then unread[..want] else unread
  }

  /** The bytes of a write are still on their way, or have been accepted as a whole. */
  predicate Lands(before: seq<byte>, chunk: seq<byte>, t: State) {
    || (t.writer.Writing? && t.writer.chunk == chunk && t.accepted == before)
    || before + chunk <= t.accepted
  }

  predicate Arrives(before: seq<byte>, bytes: seq<byte>, t: State) {
    || (t.reader.Reading? && t.reader.len == |bytes| && t.delivered == before)
    || before + bytes <= t.delivered
  }

  /** Whatever the reader does meanwhile, a write accepts exactly the bytes that fitted when it started. */
  lemma {:induction false} WriteLands(s: State, from: seq<byte>, steps: seq<Step>)
    requires Inv(s) && s.writer.WriterIdle?
    ensures Lands(s.accepted, Fitting(s, from), Run(Next(s, StartWrite(from)), steps))
  {
    var t := Next(s, StartWrite(from));
    StepKeeps(s, StartWrite(from));
    LengthIsTrue(s);
    if steps != [] {
      var n := |steps| - 1;
      WriteLands(s, from, steps[..n]);
      RunKeeps(t, steps[..n]);
      LandsNext(s.accepted, Fitting(s, from), Run(t, steps[..n]), steps[n]);
    }
  }

  lemma LandsNext(before: seq<byte>, chunk: seq<byte>, t: State, step: Step)
    requires Sized(t) && Lands(before, chunk, t)
    ensures Lands(before, chunk, Next(t, step))
  {
    if step == PublishIn && Enabled(t, step) && before + chunk <= t.accepted {
      assert t.accepted <= t.accepted + t.writer.chunk;
    }
  }

  /** Whatever the writer does meanwhile, a read returns the next bytes, as many as there were and were asked for. */
  lemma {:induction false} ReadLands(s: State, want: nat, steps: seq<Step>)
    requires Inv(s) && s.reader.ReaderIdle?
    ensures Arrives(s.delivered, Unread(s, want), Run(Next(s, StartRead(want)), steps))
  {
    var t := Next(s, StartRead(want));
    StepKeeps(s, StartRead(want));
    LengthIsTrue(s);
    if steps != [] {
      var n := |steps| - 1;
      ReadLands(s, want, steps[..n]);
      RunKeeps(t, steps[..n]);
      AcceptedGrows(t, steps[..n]);
      ArrivesNext(s, want, Run(t, steps[..n]), steps[n]);
    }
  }

  lemma {:induction false} AcceptedGrows(s: State, steps: seq<Step>)
    requires Inv(s)
    ensures s.accepted <= Run(s, steps).accepted
  {
    if steps != [] {
      var n := |steps| - 1;
      AcceptedGrows(s, steps[..n]);
      RunKeeps(s, steps[..n]);
    }
  }

  lemma ArrivesNext(s: State, want: nat, t: State, step: Step)
    requires Inv(t) && |s.delivered| <= |s.accepted| && s.delivered == s.accepted[..|s.delivered|]
    requires s.accepted <= t.accepted && Arrives(s.delivered, Unread(s, want), t)
    ensures Arrives(s.delivered, Unread(s, want), Next(t, step))
  {
    var bytes := Unread(s, want);
    if step == PublishOut && Enabled(t, step) {
      if s.delivered + bytes <= t.delivered {
        assert t.delivered <= t.delivered + t.reader.got;
      } else {
        assert t.reader.got == t.accepted[|s.delivered|..|s.delivered| + |bytes|] == bytes;
      }
    }
  }

  /** Left alone, the write is through after one step a byte and the publication. */
  lemma WriteFinishes(s: State, from: seq<byte>)
    requires Inv(s) && s.writer.WriterIdle?
    ensures var chunk := Fitting(s, from);
      var t := Run(Next(s, StartWrite(from)), seq(|chunk|, _ => CopyIn) + [PublishIn]);
      t.writer.WriterIdle? && t.accepted == s.accepted + chunk
  {
    var t, chunk := Next(s, StartWrite(from)), Fitting(s, from);
    LengthIsTrue(s);
    StepKeeps(s, StartWrite(from));
    CopiesIn(t, |chunk|);
    var steps := seq(|chunk|, _ => CopyIn);
    assert (steps + [PublishIn])[..|chunk|] == steps;
    RunKeeps(t, steps);
  }

  lemma {:induction false} CopiesIn(s: State, n: nat)
    requires Inv(s) && s.writer.Writing? && s.writer.done == 0 && n <= |s.writer.chunk|
    ensures var t := Run(s, seq(n, _ => CopyIn)); t.writer == s.writer.(done := n) && t.accepted == s.accepted
  {
    if n > 0 {
      CopiesIn(s, n - 1);
      var steps := seq(n, _ => CopyIn);
      assert steps[..n - 1] == seq(n - 1, _ => CopyIn);
      RunKeeps(s, steps[..n - 1]);
    }
  }

  /** ... and so is the read. */
  lemma ReadFinishes(s: State, want: nat)
    requires Inv(s) && s.reader.ReaderIdle?
    ensures var bytes := Unread(s, want);
      var t := Run(Next(s, StartRead(want)), seq(|bytes|, _ => CopyOut) + [PublishOut]);
      t.reader.ReaderIdle? && t.delivered == s.delivered + bytes
  {
    var t, bytes := Next(s, StartRead(want)), Unread(s, want);
    LengthIsTrue(s);
    StepKeeps(s, StartRead(want));
    CopiesOut(t, |bytes|);
    var steps := seq(|bytes|, _ => CopyOut);
    assert (steps + [PublishOut])[..|bytes|] == steps;
    RunKeeps(t, steps);
    var u := Run(t, steps);
    assert u.reader.got == u.accepted[|s.delivered|..|s.delivered| + |bytes|] == bytes;
  }

  lemma {:induction false} CopiesOut(s: State, n: nat)
    requires Inv(s) && s.reader.Reading? && s.reader.got == [] && n <= s.reader.len
    ensures var t := Run(s, seq(n, _ => CopyOut));
      t.reader.Reading? && t.reader.len == s.reader.len && |t.reader.got| == n && t.delivered == s.delivered && t.accepted == s.accepted
  {
    if n > 0 {
      CopiesOut(s, n - 1);
      var steps := seq(n, _ => CopyOut);
      assert steps[..n - 1] == seq(n - 1, _ => CopyOut);
      RunKeeps(s, steps[..n - 1]);
    }
  }

  /** In every interleaving the bytes returned are the first bytes accepted, in order: none is lost,
      repeated or torn, also when the indices wrap. */
  lemma RunSafe(size: nat, buffer: seq<byte>, steps: seq<Step>)
    requires LegalSize(size) && |buffer| == size
    ensures var s := Run(Start(size, buffer), steps);
      && s.delivered <= s.accepted
      && |s.accepted| - |s.delivered| <= size
      && (s.reader.Reading? ==> s.delivered + s.reader.got <= s.accepted)
  {
    StartInv(size, buffer);
    RunKeeps(Start(size, buffer), steps);
    InvPrefix(Run(Start(size, buffer), steps));
    RunSize(Start(size, buffer), steps);
  }

  /** In every interleaving the next write of the writer hits no unread byte ... */
  lemma RunWritesSafe(size: nat, buffer: seq<byte>, steps: seq<Step>)
    requires LegalSize(size) && |buffer| == size
    ensures var s := Run(Start(size, buffer), steps);
      && Sized(s)
      && (Enabled(s, CopyIn) ==> forall k | |s.delivered| <= k < |s.accepted| :: Slot(s.size, k) != WriteAddress(s))
  {
    StartInv(size, buffer);
    RunKeeps(Start(size, buffer), steps);
    var s := Run(Start(size, buffer), steps);
    if Enabled(s, CopyIn) { WriteIsSafe(s); }
  }

  /** ... and the next read of the reader hits the next unread byte. */
  lemma RunReadsSafe(size: nat, buffer: seq<byte>, steps: seq<Step>)
    requires LegalSize(size) && |buffer| == size
    ensures var s := Run(Start(size, buffer), steps);
      && Sized(s)
      && (Enabled(s, CopyOut) ==>
           && ReadAddress(s) < s.size && |s.delivered| + |s.reader.got| < |s.accepted|
           && s.buffer[ReadAddress(s)] == s.accepted[|s.delivered| + |s.reader.got|])
  {
    StartInv(size, buffer);
    RunKeeps(Start(size, buffer), steps);
    var s := Run(Start(size, buffer), steps);
    if Enabled(s, CopyOut) { ReadIsSafe(s); }
  }

  lemma {:induction false} RunSize(s: State, steps: seq<Step>)
    requires Sized(s)
    ensures Run(s, steps).size == s.size
  {
    if steps != [] { RunSize(s, steps[..|steps| - 1]); }
  }

  // ----- the structure itself, used by one thread -----

  /** The place of byte `k` counted from the wrapped index `start`. */
  function Place(size: nat, start: nat, k: nat): (r: nat)
    requires size > 0
    ensures r < size
  {
    Slot(size, start + k)
  }

  /** `fifo_alloc`: the buffer size for a request of `n` bytes. */
  function AllocSize(n: nat): nat
    requires 0 < n < WORD
  {
    if IsPowerOfTwo(n) then n else RoundUp(n)
  }

  /** The rounded size is a power of two but not the nearest one: it reaches the request exactly up to 65536 bytes. */
  lemma AllocSizeReaches(n: nat)
    requires 0 < n < WORD
    ensures IsPowerOfTwo(AllocSize(n))
    ensures AllocSize(n) >= n <==> IsPowerOfTwo(n) || n <= 65536
    ensures !IsPowerOfTwo(n) ==> !(n <= AllocSize(n) < 2 * n)
  {
    if !IsPowerOfTwo(n) {
      PowIsPower(LeadingZeros(n - 1) + 1);
      RoundUpExact(n);
    }
  }

  lemma AddMultiple(y: nat, c: nat, m: nat)
    requires m > 0
    ensures (c * m + y) % m == y % m
  {
    MulAdd(c, y / m, m);
    RemainderUnique(c * m + y, m, c + y / m, y % m);
  }

  lemma WrappedRemainder(x: nat, k: nat, m: nat, t: nat, big: nat)
    requires m > 0 && big > 0 && big == t * m
    ensures (x % big + k) % m == (x + k) % m
  {
    var c, r := x / big, x % big;
    assert x == c * big + r;
    MulAssoc(c, t, m);
    SameRemainder(x + k, r + k, c * t, m);
  }

  lemma SameRemainder(x: nat, y: nat, q: nat, m: nat)
    requires m > 0 && x == q * m + y
    ensures x % m == y % m
  {
    AddMultiple(y, q, m);
  }

  lemma SizeDividesWord(size: nat) returns (t: nat)
    requires LegalSize(size)
    ensures WORD == t * size
  {
    var e := FindExponent(size);
    WordIsPow();
    if e > 32 { Pow2Add(e - 32, 32); }
    Pow2Add(32 - e, e);
    t := Pow2(32 - e);
  }

  /** Moving the index by `d`, with the wrap, moves the places by `d`. */
  lemma PlaceShift(size: nat, n: nat, d: nat, k: nat)
    requires LegalSize(size)
    ensures Place(size, (n + d) % WORD, k) == Place(size, n, d + k)
  {
    var t := SizeDividesWord(size);
    WrappedRemainder(n + d, k, size, t, WORD);
  }

  /** With `used` bytes from `out` on, the free places start at the wrapped `inp` and hold no used byte. */
  lemma PlacesDistinct(size: nat, out: nat, used: nat, j: nat, k: nat)
    requires LegalSize(size) && j < used && used + k < size
    ensures Place(size, out, j) != Place(size, (out + used) % WORD, k)
  {
    PlaceShift(size, out, used, k);
    SlotsDistinct(size, out + j, out + (used + k));
  }

  lemma SlotsDistinct(size: nat, a: nat, b: nat)
    requires size > 0 && a < b < a + size
    ensures Slot(size, a) != Slot(size, b)
  {
    WindowDistinct(a, b, size);
  }

  lemma PlaceFrom(size: nat, start: nat, k: nat)
    requires size > 0 && k <= size
    ensures var off := start % size; Place(size, start, k) == if off + k < size then off + k else off + k - size
  {
    RemainderStep(start, k, size);
  }

  lemma MoreUsed(inp: nat, out: nat, n: nat)
    requires inp < WORD && out < WORD && (inp - out) % WORD + n < WORD
    ensures ((inp + n) % WORD - out) % WORD == (inp - out) % WORD + n
  {}

  lemma LessUsed(inp: nat, out: nat, n: nat)
    requires inp < WORD && out < WORD && n <= (inp - out) % WORD
    ensures (inp - (out + n) % WORD) % WORD == (inp - out) % WORD - n
  {}

  /** `used` is the distance from `out` to `inp`. */
  lemma InpFromOut(inp: nat, out: nat)
    requires inp < WORD && out < WORD
    ensures inp == (out + (inp - out) % WORD) % WORD
  {}

  /** The bytes from `out` on, oldest first. */
  function Window(buffer: seq<byte>, out: nat, used: nat): (r: seq<byte>)
    requires |buffer| > 0
    ensures |r| == used
  {
    seq(used, (k: nat) => buffer[Place(|buffer|, out, k)])
  }

  /** The buffer after `from` was copied in at `off`: up to the end first, the rest at the beginning. */
  function Overlay(buffer: seq<byte>, off: nat, from: seq<byte>): (r: seq<byte>)
    requires off < |buffer| && |from| <= |buffer|
    ensures |r| == |buffer|
  {
    var l := Least(|from|, |buffer| - off);
    seq(|buffer|, a requires 0 <= a < |buffer| =>
      if off <= a < off + l then from[a - off]
      else if a < |from| - l then from[l + a]
      else buffer[a])
  }

  lemma OverlayNew(buffer: seq<byte>, start: nat, from: seq<byte>, k: nat)
    requires |buffer| > 0 && |from| <= |buffer| && k < |from|
    ensures Overlay(buffer, start % |buffer|, from)[Place(|buffer|, start, k)] == from[k]
  {
    PlaceFrom(|buffer|, start, k);
  }

  lemma OverlayOld(buffer: seq<byte>, out: nat, used: nat, from: seq<byte>, j: nat)
    requires LegalSize(|buffer|) && j < used && used + |from| <= |buffer|
    ensures var inp := (out + used) % WORD;
      Overlay(buffer, inp % |buffer|, from)[Place(|buffer|, out, j)] == buffer[Place(|buffer|, out, j)]
  {
    var size, inp := |buffer|, (out + used) % WORD;
    var off, a := inp % size, Place(size, out, j);
    var l := Least(|from|, size - off);
    if off <= a < off + l {
      PlaceFrom(size, inp, a - off);
      PlacesDistinct(size, out, used, j, a - off);
    } else if a < |from| - l {
      PlaceFrom(size, inp, l + a);
      PlacesDistinct(size, out, used, j, l + a);
    }
  }

  /** Copying in behind the used bytes appends to them. */
  lemma OverlayAppends(buffer: seq<byte>, out: nat, used: nat, from: seq<byte>)
    requires LegalSize(|buffer|) && used + |from| <= |buffer|
    ensures var inp := (out + used) % WORD;
      Window(Overlay(buffer, inp % |buffer|, from), out, used + |from|) == Window(buffer, out, used) + from
  {
    var size, inp := |buffer|, (out + used) % WORD;
    var after := Overlay(buffer, inp % size, from);
    forall k | 0 <= k < used + |from|
      ensures Window(after, out, used + |from|)[k] == (Window(buffer, out, used) + from)[k]
    {
      if k < used {
        OverlayOld(buffer, out, used, from, k);
      } else {
        PlaceShift(size, out, used, k - used);
        OverlayNew(buffer, inp, from, k - used);
      }
    }
  }

  /** The same in terms of the two wrapped indices. */
  lemma PutAppends(buffer: seq<byte>, inp: nat, out: nat, from: seq<byte>)
    requires LegalSize(|buffer|) && inp < WORD && out < WORD && (inp - out) % WORD + |from| <= |buffer|
    ensures var used, used' := (inp - out) % WORD, ((inp + |from|) % WORD - out) % WORD;
      && used' == used + |from|
      && Window(Overlay(buffer, inp % |buffer|, from), out, used') == Window(buffer, out, used) + from
  {
    InpFromOut(inp, out);
    MoreUsed(inp, out, |from|);
    OverlayAppends(buffer, out, (inp - out) % WORD, from);
  }

  /** Moving `out` on drops the oldest bytes. */
  lemma WindowDrops(buffer: seq<byte>, out: nat, used: nat, n: nat)
    requires LegalSize(|buffer|) && n <= used
    ensures Window(buffer, (out + n) % WORD, used - n) == Window(buffer, out, used)[n..]
  {
    forall k | 0 <= k < used - n
      ensures Window(buffer, (out + n) % WORD, used - n)[k] == Window(buffer, out, used)[n..][k]
    {
      PlaceShift(|buffer|, out, n, k);
    }
  }

  lemma WindowPrefix(buffer: seq<byte>, out: nat, used: nat, n: nat)
    requires |buffer| > 0 && n <= used
    ensures Window(buffer, out, used)[..n] == Window(buffer, out, n)
  {}

  /** The oldest bytes are read by two copies. */
  lemma WindowReads(buffer: seq<byte>, out: nat, len: nat)
    requires LegalSize(|buffer|) && len <= |buffer|
    ensures var off := out % |buffer|; var l := Least(len, |buffer| - off);
      buffer[off..off + l] + buffer[..len - l] == Window(buffer, out, len)
  {
    forall k | 0 <= k < len
      ensures var off := out % |buffer|; var l := Least(len, |buffer| - off);
        (buffer[off..off + l] + buffer[..len - l])[k] == Window(buffer, out, len)[k]
    {
      PlaceFrom(|buffer|, out, k);
    }
  }

  class Fifo {
    var buffer: array<byte>
    var size: nat
    var inp: nat
    var out: nat

    ghost predicate Valid()
      reads this
    {
      LegalSize(size) && buffer.Length == size && inp < WORD && out < WORD && Used() <= size
    }

    /** `fifo_len`. */
    function Used(): nat
      reads this
    {
      (inp - out) % WORD
    }

    ghost function Contents(): seq<byte>
      requires Valid()
      reads this, buffer
    {
      Window(buffer[..], out, Used())
    }

    /** `fifo_init`: a size that is not a power of two is refused and nothing is set up. */
    method Init(buffer: array<byte>, size: nat)
      requires buffer.Length == size < WORD
      modifies this
      ensures IsPowerOfTwo(size) ==> Valid() && Contents() == [] && this.buffer == buffer && this.size == size
      ensures !IsPowerOfTwo(size) ==> unchanged(this)
    {
      if !IsPowerOfTwo(size) {
        return;
      }
      this.buffer, this.size := buffer, size;
      inp, out := 0, 0;
    }

    /** `__fifo_in_data`. */
    method PutData(from: seq<byte>)
      requires Valid() && |from| <= size
      modifies buffer
      ensures buffer[..] == Overlay(old(buffer[..]), inp % size, from)
    {
      var off := Mask(size, inp);
      CopyBoth(buffer, off, from);
    }

    /** `fifo_in`: as much as fits is appended. */
    method Put(from: seq<byte>) returns (n: nat)
      requires Valid() && |from| < WORD
      modifies this`inp, buffer
      ensures Valid() && n == Least(|from|, size - old(Used()))
      ensures Contents() == old(Contents()) + from[..n]
    {
      n := Least(size - Used(), |from|);
      PutAppends(buffer[..], inp, out, from[..n]);
      PutData(from[..n]);
      inp := (inp + n) % WORD;
    }

    /** `__fifo_out_data`. */
    method GetData(len: nat) returns (to: seq<byte>)
      requires Valid() && len <= Used()
      ensures to == Contents()[..len]
    {
      var off := Mask(size, out);
      to := CopyOutOf(buffer, off, len);
      WindowReads(buffer[..], out, len);
      WindowPrefix(buffer[..], out, Used(), len);
    }

    /** `__fifo_add_out`. */
    method Drop(n: nat)
      requires Valid() && n <= Used()
      modifies this`out
      ensures Valid() && Contents() == old(Contents())[n..]
    {
      WindowDrops(buffer[..], out, Used(), n);
      LessUsed(inp, out, n);
      out := (out + n) % WORD;
    }

    /** `fifo_out`: the oldest bytes, at most `len`. */
    method Get(len: nat) returns (to: seq<byte>)
      requires Valid()
      modifies this`out
      ensures Valid() && |to| == Least(len, |old(Contents())|)
      ensures to + Contents() == old(Contents())
    {
      var n := Least(Used(), len);
      to := GetData(n);
      Drop(n);
    }

    /** `fifo_skip`. */
    method Skip(len: nat)
      requires Valid()
      modifies this`out
      ensures Valid() && Contents() == old(Contents())[Least(len, |old(Contents())|)..]
    {
      if len < Used() {
        Drop(len);
      } else {
        out := inp;
      }
    }
  }

  /** `__fifo_off`. */
  method Mask(size: nat, index: nat) returns (off: nat)
    requires LegalSize(size) && index < WORD
    ensures off == index % size && off < size
  {
    off := Offset(size, index);
    ghost var k := FindExponent(size);
    assert off == BitAnd(index, Pow2(k) - 1) == index % size by { MaskIsRemainder(index, k); }
  }

  /** The two `memcpy` calls of `__fifo_out_data`. */
  method CopyOutOf(buffer: array<byte>, off: nat, len: nat) returns (to: seq<byte>)
    requires off < buffer.Length && len <= buffer.Length
    ensures var b, l := buffer[..], Least(len, buffer.Length - off); to == b[off..off + l] + b[..len - l]
  {
    var l := Least(len, buffer.Length - off);
    to := buffer[off..off + l] + buffer[..len - l];
  }

  /** The two `memcpy` calls of `__fifo_in_data`. */
  method CopyBoth(buffer: array<byte>, off: nat, from: seq<byte>)
    requires off < buffer.Length && |from| <= buffer.Length
    modifies buffer
    ensures buffer[..] == Overlay(old(buffer[..]), off, from)
  {
    var l := Least(|from|, buffer.Length - off);
    forall i | 0 <= i < l { buffer[off + i] := from[i]; }
    forall i | 0 <= i < |from| - l { buffer[i] := from[l + i]; }
  }
}
