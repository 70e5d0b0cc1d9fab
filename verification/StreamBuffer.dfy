/** The two-thread ring buffer of the streaming example (examples/vdf_stream.c): a download thread fills
    sectors, the file callback empties them. Every read or write of shared memory is a step of its own;
    a run is any interleaving of the steps of both threads. */
module StreamBuffer {
  import opened Bytes

  /** `n` is BUFFCNT, `b` the sector size. In the source text advancing a position is two stores: an
      increment, then a reset to 0 at the end of the buffer. `endOnce` and `startOnce` tell whether another
      thread sees the advance of `bend` and of `bstart` as one store. */
  datatype Params = Params(n: nat, b: nat, endOnce: bool, startOnce: bool)

  /** `curl_cback`: between calls, before the overflow check, copying `want` bytes of which `done` are
      stored, or between the two stores to `bend`. */
  datatype Producer =
    | PIdle | PLoop(chunk: seq<byte>) | PWrite(chunk: seq<byte>, want: nat, done: nat) | PWrap(chunk: seq<byte>)

  /** `file_cback`: between calls, waiting with `k` sectors to go, behind the wait loop, copying, or between
      the two stores to `bstart`. */
  datatype Consumer = CIdle | CWant(k: nat) | CFound(k: nat) | CCopy(k: nat, done: nat) | CWrap(k: nat)

  /** The globals of the program, the two threads and the history of the run: the bytes received and
      handed out, the sectors published and consumed, and how often silence was fed in. */
  datatype State = State(
    bstart: nat, bend: nat, writeoff: nat, slots: seq<seq<byte>>,
    prod: Producer, cons: Consumer,
    received: seq<byte>, delivered: seq<byte>, published: nat, consumed: nat, silences: nat)

  datatype Action =
    | Receive(chunk: seq<byte>) | Check | Store | Publish | Wrap | Finish
    | Request(k: nat) | Poll | Decide | Copy | Advance | Rewind | Return

  predicate ParamsOk(p: Params) {
    p.n >= 2 && p.b >= 1
  }

  function Next(p: Params, i: nat): nat {
    if i + 1 == p.n then 0 else i + 1
  }

  /** `will_overflow`. */
  predicate WillOverflow(p: Params, s: State) {
    Next(p, s.bend) == s.bstart
  }

  predicate Enabled(p: Params, s: State, a: Action) {
    match a
    case Receive(_) => s.prod.PIdle?
    case Check => s.prod.PLoop? && s.prod.chunk != []
    case Store => s.prod.PWrite? && s.prod.done < s.prod.want && s.prod.done < |s.prod.chunk| && s.bend < |s.slots|
                  && s.writeoff + s.prod.done < |s.slots[s.bend]|
    case Publish => s.prod.PWrite? && s.prod.done == s.prod.want && s.prod.want <= |s.prod.chunk|
    case Wrap => s.prod.PWrap?
    case Finish => s.prod.PLoop? && s.prod.chunk == []
    case Request(_) => s.cons.CIdle?
    case Poll => s.cons.CWant? && s.cons.k > 0
    case Decide => s.cons.CFound? && s.cons.k > 0
    case Copy => s.cons.CCopy? && s.cons.done < p.b && s.bstart < |s.slots| && s.cons.done < |s.slots[s.bstart]|
    case Advance => s.cons.CCopy? && s.cons.k > 0 && s.cons.done == p.b
    case Rewind => s.cons.CWrap?
    case Return => s.cons.CWant? && s.cons.k == 0
  }

  /** The part of a publishing step that is the same either way. */
  function Published(p: Params, s: State): State
    requires s.prod.PWrite? && s.prod.want <= |s.prod.chunk|
  {
    var rest := s.prod.chunk[s.prod.want..];
    if s.writeoff + s.prod.want != p.b then s.(writeoff := s.writeoff + s.prod.want, prod := PLoop(rest))
    else if p.endOnce then s.(bend := Next(p, s.bend), writeoff := 0, published := s.published + 1, prod := PLoop(rest))
    else s.(bend := s.bend + 1, writeoff := 0, published := s.published + 1, prod := PWrap(rest))
  }

  function Apply(p: Params, s: State, a: Action): State
    requires Enabled(p, s, a)
  {
    match a
    case Receive(chunk) => s.(prod := PLoop(chunk), received := s.received + chunk)
    case Check =>
      if WillOverflow(p, s) then s
      else s.(prod := PWrite(s.prod.chunk, if s.writeoff <= p.b then Min(p.b - s.writeoff, |s.prod.chunk|) else 0, 0))
    case Store =>
      s.(slots := s.slots[s.bend := s.slots[s.bend][s.writeoff + s.prod.done := s.prod.chunk[s.prod.done]]],
         prod := s.prod.(done := s.prod.done + 1))
    case Publish => Published(p, s)
    case Wrap => s.(bend := if s.bend == p.n then 0 else s.bend, prod := PLoop(s.prod.chunk))
    case Finish => s.(prod := PIdle)
    case Request(k) => s.(cons := CWant(k))
    case Poll => if s.bstart == s.bend then s else s.(cons := CFound(s.cons.k))
    case Decide =>
      if s.bstart == s.bend
      then s.(cons := CWant(s.cons.k - 1), delivered := s.delivered + seq(p.b, i => 0), silences := s.silences + 1)
      else s.(cons := CCopy(s.cons.k, 0))
    case Copy => s.(delivered := s.delivered + [s.slots[s.bstart][s.cons.done]],
                        cons := s.cons.(done := s.cons.done + 1))
    case Advance =>
      if p.startOnce then s.(bstart := Next(p, s.bstart), consumed := s.consumed + 1, cons := CWant(s.cons.k - 1))
      else s.(bstart := s.bstart + 1, consumed := s.consumed + 1, cons := CWrap(s.cons.k - 1))
    case Rewind => s.(bstart := if s.bstart == p.n then 0 else s.bstart, cons := CWant(s.cons.k))
    case Return => s.(cons := CIdle)
  }

  function Start(p: Params, slots: seq<seq<byte>>): State {
    State(0, 0, 0, slots, PIdle, CIdle, [], [], 0, 0, 0)
  }

  /** The memory of the buffer: `n` sectors of `b` bytes. */
  ghost predicate Memory(p: Params, slots: seq<seq<byte>>) {
    |slots| == p.n && forall i :: 0 <= i < p.n ==> |slots[i]| == p.b
  }

  /** The state after the first `k` actions of a run, if each of them was enabled. */
  ghost predicate IsRun(p: Params, slots: seq<seq<byte>>, acts: seq<Action>, states: seq<State>) {
    && |states| == |acts| + 1 && states[0] == Start(p, slots)
    && forall i {:trigger StepAt(p, acts, states, i)} :: 0 <= i < |acts| ==> StepAt(p, acts, states, i)
  }

  ghost predicate StepAt(p: Params, acts: seq<Action>, states: seq<State>, i: int)
    requires |states| == |acts| + 1 && 0 <= i < |acts|
  {
    Enabled(p, states[i], acts[i]) && states[i + 1] == Apply(p, states[i], acts[i])
  }

  // ---------------------------------------------------------------- the invariant

  function Pending(s: State): seq<byte> {
    match s.prod
    case PIdle => []
    case PLoop(chunk) => chunk
    case PWrite(chunk, _, _) => chunk
    case PWrap(chunk) => chunk
  }

  /** How much of the sector at `bend` is already written. */
  function Fill(s: State): nat {
    s.writeoff + if s.prod.PWrite? then s.prod.done else 0
  }

  function Taken(s: State): nat {
    if s.cons.CCopy? then s.cons.done else 0
  }

  ghost predicate Positions(p: Params, s: State)
    requires ParamsOk(p)
  {
    && Memory(p, s.slots)
    && s.bstart == s.consumed % p.n && s.bend == s.published % p.n
    && s.consumed <= s.published < s.consumed + p.n
    && s.writeoff < p.b && s.silences == 0
    && !s.prod.PWrap? && !s.cons.CWrap?
    && (s.prod.PWrite? ==>
          && s.published + 1 < s.consumed + p.n
          && 0 < s.prod.want == Min(p.b - s.writeoff, |s.prod.chunk|)
          && s.prod.done <= s.prod.want)
    && (s.cons.CFound? || s.cons.CCopy? ==> s.consumed < s.published && s.cons.k > 0)
    && Taken(s) <= p.b
  }

  /** Everything received has been stored, except for what the producer still holds. */
  ghost predicate Accounted(p: Params, s: State) {
    && |s.received| == s.published * p.b + s.writeoff + |Pending(s)|
    && forall j :: 0 <= j < |Pending(s)| ==> s.received[s.published * p.b + s.writeoff + j] == Pending(s)[j]
  }

  /** `sector` holds the `i`-th sector of the bytes received, as far as `len` bytes. */
  ghost predicate Holds(b: nat, received: seq<byte>, i: nat, sector: seq<byte>, len: nat) {
    && len <= |sector| && Times(i, b) + len <= |received|
    && forall j :: 0 <= j < len ==> sector[j] == received[Times(i, b) + j]
  }

  ghost predicate Unread(p: Params, s: State, i: int)
    requires Memory(p, s.slots) && ParamsOk(p) && 0 <= i
  {
    Holds(p.b, s.received, i, s.slots[i % p.n], p.b)
  }

  ghost predicate Stored(p: Params, s: State)
    requires Memory(p, s.slots) && ParamsOk(p)
  {
    && (forall i {:trigger Unread(p, s, i)} :: s.consumed <= i < s.published ==> Unread(p, s, i))
    && Holds(p.b, s.received, s.published, s.slots[s.published % p.n], Fill(s))
  }

  /** What was handed out is the beginning of what was received. */
  ghost predicate InOrder(p: Params, s: State) {
    && |s.delivered| == s.consumed * p.b + Taken(s) <= |s.received|
    && s.delivered == s.received[..|s.delivered|]
  }

  ghost predicate Inv(p: Params, s: State) {
    ParamsOk(p) && Positions(p, s) && Accounted(p, s) && Stored(p, s) && InOrder(p, s)
  }

  // ---------------------------------------------------------------- arithmetic of the ring

  lemma NextIndex(p: Params, i: nat)
    requires ParamsOk(p)
    ensures Next(p, i % p.n) == (i + 1) % p.n < p.n
  {
    var q := i / p.n;
    assert i == p.n * q + i % p.n;
    if i % p.n + 1 == p.n {
      ModOf(i + 1, p.n, q + 1, 0);
    } else {
      ModOf(i + 1, p.n, q, i % p.n + 1);
    }
  }

  lemma ModOf(x: nat, n: nat, q: int, r: nat)
    requires r < n && x == n * q + r
    ensures x % n == r
  {
    var d := x / n;
    assert x == n * d + x % n;
    if d < q {
      MulMono(d + 1, q, n);
      MulSplit(d, 1, n);
    } else if q < d {
      MulMono(q + 1, d, n);
      MulSplit(q, 1, n);
    }
  }

  /** Fewer than `n` apart, different positions stay different. */
  lemma SlotsDiffer(p: Params, i: nat, j: nat)
    requires ParamsOk(p) && i < j < i + p.n
    ensures i % p.n != j % p.n
  {
    if i % p.n == j % p.n {
      var q := i / p.n;
      assert i == p.n * q + i % p.n;
      var d := j / p.n;
      assert j == p.n * d + j % p.n;
      MulSplit(q, d - q, p.n);
      if d <= q {
        MulMono(d - q, 0, p.n);
      } else {
        MulMono(1, d - q, p.n);
      }
    }
  }

  // ---------------------------------------------------------------- every step keeps the invariant

  lemma StartInv(p: Params, slots: seq<seq<byte>>)
    requires ParamsOk(p) && Memory(p, slots)
    ensures Inv(p, Start(p, slots))
  {
  }

  lemma ReceiveKeeps(p: Params, s: State, chunk: seq<byte>)
    requires Inv(p, s) && s.prod.PIdle?
    ensures Inv(p, Apply(p, s, Receive(chunk)))
  {
    var t := Apply(p, s, Receive(chunk));
    forall i {:trigger Unread(p, t, i)} | t.consumed <= i < t.published
      ensures Unread(p, t, i)
    {
      assert Unread(p, s, i);
    }
  }

  lemma CheckKeeps(p: Params, s: State)
    requires Inv(p, s) && Enabled(p, s, Check)
    ensures Inv(p, Apply(p, s, Check))
  {
    var t := Apply(p, s, Check);
    NextIndex(p, s.published);
    assert s.published + 1 == s.consumed + p.n ==> WillOverflow(p, s) by {
      if s.published + 1 == s.consumed + p.n {
        SameSlot(p, s.consumed);
      }
    }
    forall i {:trigger Unread(p, t, i)} | t.consumed <= i < t.published
      ensures Unread(p, t, i)
    {
      assert Unread(p, s, i);
    }
  }

  lemma SameSlot(p: Params, i: nat)
    requires ParamsOk(p)
    ensures (i + p.n) % p.n == i % p.n
  {
    assert i == p.n * (i / p.n) + i % p.n;
    MulSplit(i / p.n, 1, p.n);
    ModOf(i + p.n, p.n, i / p.n + 1, i % p.n);
  }

  /** The byte goes into the sector under construction, which is not among the unread ones. */
  lemma StoreKeeps(p: Params, s: State)
    requires Inv(p, s) && Enabled(p, s, Store)
    ensures Inv(p, Apply(p, s, Store))
    ensures forall i :: s.consumed <= i < s.published ==> Apply(p, s, Store).slots[i % p.n] == s.slots[i % p.n]
  {
    var t := Apply(p, s, Store);
    forall i {:trigger Unread(p, t, i)} | t.consumed <= i < t.published
      ensures Unread(p, t, i)
    {
      assert Unread(p, s, i);
      SlotsDiffer(p, i, s.published);
    }
    forall i | s.consumed <= i < s.published
      ensures t.slots[i % p.n] == s.slots[i % p.n]
    {
      SlotsDiffer(p, i, s.published);
    }
    StoredOne(p, s, t);
  }

  lemma StoredOne(p: Params, s: State, t: State)
    requires Inv(p, s) && Enabled(p, s, Store) && t == Apply(p, s, Store)
    ensures Holds(p.b, t.received, t.published, t.slots[t.published % p.n], Fill(t))
  {
    var d := s.prod.done;
    assert Pending(s)[d] == s.received[s.published * p.b + s.writeoff + d];
  }

  lemma PublishKeeps(p: Params, s: State)
    requires Inv(p, s) && Enabled(p, s, Publish) && p.endOnce
    ensures Inv(p, Apply(p, s, Publish))
  {
    var t := Apply(p, s, Publish);
    NextIndex(p, s.published);
    MulSplit(s.published, 1, p.b);
    PublishAccounted(p, s, t);
    forall i {:trigger Unread(p, t, i)} | t.consumed <= i < t.published
      ensures Unread(p, t, i)
    {
      if i < s.published {
        assert Unread(p, s, i);
      }
    }
  }

  lemma PublishAccounted(p: Params, s: State, t: State)
    requires Inv(p, s) && Enabled(p, s, Publish) && p.endOnce && t == Apply(p, s, Publish)
    ensures Accounted(p, t)
  {
    MulSplit(s.published, 1, p.b);
    forall j | 0 <= j < |Pending(t)|
      ensures t.received[t.published * p.b + t.writeoff + j] == Pending(t)[j]
    {
      assert Pending(t)[j] == Pending(s)[s.prod.want + j];
    }
  }

  /** What is stored does not depend on where the threads stand. */
  lemma StoredSame(p: Params, s: State, t: State)
    requires ParamsOk(p) && Memory(p, s.slots) && Stored(p, s)
    requires t.slots == s.slots && t.received == s.received && t.published == s.published && t.consumed == s.consumed
    requires Fill(t) <= Fill(s)
    ensures Stored(p, t)
  {
    forall i {:trigger Unread(p, t, i)} | t.consumed <= i < t.published
      ensures Unread(p, t, i)
    {
      assert Unread(p, s, i);
    }
  }

  /** Steps that move neither bytes nor positions. */
  lemma QuietKeeps(p: Params, s: State, a: Action)
    requires Inv(p, s) && Enabled(p, s, a) && (a.Finish? || a.Request? || a.Return?)
    ensures Inv(p, Apply(p, s, a))
  {
    StoredSame(p, s, Apply(p, s, a));
  }

  /** The reader's two tests: both see an empty buffer exactly when it is empty. */
  lemma TestKeeps(p: Params, s: State, a: Action)
    requires Inv(p, s) && Enabled(p, s, a) && (a.Poll? || a.Decide?)
    ensures Inv(p, Apply(p, s, a))
  {
    if s.consumed < s.published {
      SlotsDiffer(p, s.consumed, s.published);
    }
    StoredSame(p, s, Apply(p, s, a));
  }

  lemma CopyKeeps(p: Params, s: State)
    requires Inv(p, s) && Enabled(p, s, Copy)
    ensures Inv(p, Apply(p, s, Copy))
  {
    var t := Apply(p, s, Copy);
    assert Unread(p, s, s.consumed);
    forall i {:trigger Unread(p, t, i)} | t.consumed <= i < t.published
      ensures Unread(p, t, i)
    {
      assert Unread(p, s, i);
    }
    CopyInOrder(s.delivered, s.received, s.slots[s.bstart][s.cons.done]);
  }

  lemma CopyInOrder(delivered: seq<byte>, received: seq<byte>, x: byte)
    requires |delivered| < |received| && delivered == received[..|delivered|] && x == received[|delivered|]
    ensures delivered + [x] == received[..|delivered| + 1]
  {
  }

  lemma AdvanceKeeps(p: Params, s: State)
    requires Inv(p, s) && Enabled(p, s, Advance) && p.startOnce
    ensures Inv(p, Apply(p, s, Advance))
  {
    var t := Apply(p, s, Advance);
    NextIndex(p, s.consumed);
    MulSplit(s.consumed, 1, p.b);
    forall i {:trigger Unread(p, t, i)} | t.consumed <= i < t.published
      ensures Unread(p, t, i)
    {
      assert Unread(p, s, i);
    }
  }

  lemma StepKeeps(p: Params, s: State, a: Action)
    requires Inv(p, s) && Enabled(p, s, a) && p.endOnce && p.startOnce
    ensures Inv(p, Apply(p, s, a))
  {
    match a {
      case Receive(chunk) => ReceiveKeeps(p, s, chunk);
      case Check => CheckKeeps(p, s);
      case Store => StoreKeeps(p, s);
      case Publish => PublishKeeps(p, s);
      case Wrap =>
      case Rewind =>
      case Poll => TestKeeps(p, s, a);
      case Decide => TestKeeps(p, s, a);
      case Copy => CopyKeeps(p, s);
      case Advance => AdvanceKeeps(p, s);
      case _ => QuietKeeps(p, s, a);
    }
  }

  // ---------------------------------------------------------------- safety over whole runs

  lemma {:induction false} RunKeeps(p: Params, slots: seq<seq<byte>>, acts: seq<Action>, states: seq<State>, k: nat)
    requires ParamsOk(p) && p.endOnce && p.startOnce && Memory(p, slots) && IsRun(p, slots, acts, states)
    requires k < |states|
    ensures Inv(p, states[k])
  {
    if k == 0 {
      StartInv(p, slots);
    } else {
      RunKeeps(p, slots, acts, states, k - 1);
      assert StepAt(p, acts, states, k - 1);
      StepKeeps(p, states[k - 1], acts[k - 1]);
    }
  }

  /** Under every interleaving, and however the incoming bytes are cut into chunks: what the reader got
      is a prefix of what was received, silence is never fed in, at most n - 1 sectors are waiting, the
      buffer looks empty to the reader exactly when it is, and full to the writer exactly when it is. */
  lemma RunIsSafe(p: Params, slots: seq<seq<byte>>, acts: seq<Action>, states: seq<State>, k: nat)
    requires ParamsOk(p) && p.endOnce && p.startOnce && Memory(p, slots) && IsRun(p, slots, acts, states)
    requires k < |states|
    ensures
      var s := states[k];
      && s.delivered <= s.received
      && s.silences == 0
      && 0 <= s.published - s.consumed <= p.n - 1
      && (s.bstart == s.bend <==> s.published == s.consumed)
      && (WillOverflow(p, s) <==> s.published - s.consumed == p.n - 1)
  {
    var s := states[k];
    RunKeeps(p, slots, acts, states, k);
    NextIndex(p, s.published);
    if s.consumed < s.published {
      SlotsDiffer(p, s.consumed, s.published);
    }
    if s.published + 1 < s.consumed + p.n {
      SlotsDiffer(p, s.consumed, s.published + 1);
    } else {
      SameSlot(p, s.consumed);
    }
  }

  /** No step overwrites a sector that the reader has not finished. */
  lemma UnreadUntouched(p: Params, slots: seq<seq<byte>>, acts: seq<Action>, states: seq<State>, k: nat, i: nat)
    requires ParamsOk(p) && p.endOnce && p.startOnce && Memory(p, slots) && IsRun(p, slots, acts, states) && k < |acts|
    requires states[k].consumed <= i < states[k].published
    ensures i % p.n < |states[k].slots| && i % p.n < |states[k + 1].slots|
    ensures states[k + 1].slots[i % p.n] == states[k].slots[i % p.n]
  {
    RunKeeps(p, slots, acts, states, k);
    RunKeeps(p, slots, acts, states, k + 1);
    assert StepAt(p, acts, states, k);
    assert 0 <= i % p.n < p.n;
    if acts[k].Store? {
      StoreKeeps(p, states[k]);
    }
  }

  /** A thread is never stuck at a memory access: whatever it is about to do stays inside the buffer. */
  lemma AccessesInside(p: Params, s: State)
    requires Inv(p, s)
    ensures s.prod.PWrite? ==> Enabled(p, s, if s.prod.done < s.prod.want then Store else Publish)
    ensures s.cons.CCopy? ==> Enabled(p, s, if s.cons.done < p.b then Copy else Advance)
  {
    assert 0 <= s.bend < p.n && 0 <= s.bstart < p.n;
  }

  // ---------------------------------------------------------------- reaching a state

  /** Some run ends in state `s`. */
  ghost predicate Reaches(p: Params, slots: seq<seq<byte>>, s: State) {
    exists acts: seq<Action>, states: seq<State> :: IsRun(p, slots, acts, states) && states[|acts|] == s
  }

  lemma ReachStart(p: Params, slots: seq<seq<byte>>)
    ensures Reaches(p, slots, Start(p, slots))
  {
    assert IsRun(p, slots, [], [Start(p, slots)]);
  }

  lemma ReachNext(p: Params, slots: seq<seq<byte>>, s: State, a: Action)
    requires Reaches(p, slots, s) && Enabled(p, s, a)
    ensures Reaches(p, slots, Apply(p, s, a))
  {
    var acts: seq<Action>, states: seq<State> :| IsRun(p, slots, acts, states) && states[|acts|] == s;
    var acts', states' := acts + [a], states + [Apply(p, s, a)];
    forall i {:trigger StepAt(p, acts', states', i)} | 0 <= i < |acts'|
      ensures StepAt(p, acts', states', i)
    {
      if i < |acts| {
        assert StepAt(p, acts, states, i);
      }
    }
    assert IsRun(p, slots, acts', states');
  }

  /** The rest of a sector is stored. */
  lemma {:induction false} StoreBytes(p: Params, slots: seq<seq<byte>>, s: State, chunk: seq<byte>,
                                      d: nat) returns (t: State)
    requires Reaches(p, slots, s) && Memory(p, s.slots) && s.bend < p.n && s.writeoff == 0
    requires |chunk| == p.b && d <= p.b && s.prod == PWrite(chunk, p.b, d) && s.slots[s.bend][..d] == chunk[..d]
    ensures Reaches(p, slots, t)
    ensures t == s.(slots := s.slots[s.bend := chunk], prod := PWrite(chunk, p.b, p.b))
    decreases p.b - d
  {
    if d == p.b {
      assert s.slots[s.bend] == chunk;
      assert s.slots[s.bend := chunk] == s.slots;
      t := s;
    } else {
      ReachNext(p, slots, s, Store);
      var u := Apply(p, s, Store);
      assert u.slots[s.bend][..d + 1] == chunk[..d + 1];
      assert u.slots[s.bend := chunk] == s.slots[s.bend := chunk];
      t := StoreBytes(p, slots, u, chunk, d + 1);
    }
  }

  /** A chunk of one sector arrives, is stored and published. */
  lemma WriteSector(p: Params, slots: seq<seq<byte>>, s: State, chunk: seq<byte>) returns (t: State)
    requires ParamsOk(p) && Reaches(p, slots, s) && Memory(p, s.slots) && |chunk| == p.b
    requires s.prod == PIdle && s.writeoff == 0 && s.bend < p.n && !WillOverflow(p, s)
    ensures Reaches(p, slots, t) && Memory(p, t.slots)
    ensures t == s.(slots := s.slots[s.bend := chunk], bend := if p.endOnce then Next(p, s.bend) else s.bend + 1,
                    published := s.published + 1, received := s.received + chunk,
                    prod := if p.endOnce then PLoop([]) else PWrap([]))
  {
    ReachNext(p, slots, s, Receive(chunk));
    var s1 := Apply(p, s, Receive(chunk));
    ReachNext(p, slots, s1, Check);
    var s2 := Apply(p, s1, Check);
    var s3 := StoreBytes(p, slots, s2, chunk, 0);
    assert chunk[p.b..] == [];
    ReachNext(p, slots, s3, Publish);
    t := Apply(p, s3, Publish);
  }

  /** The writer completes its advance and returns. */
  lemma WriterReturns(p: Params, slots: seq<seq<byte>>, s: State) returns (t: State)
    requires Reaches(p, slots, s) && (s.prod == PLoop([]) || s.prod == PWrap([]))
    ensures Reaches(p, slots, t)
    ensures t == s.(bend := if s.prod.PWrap? && s.bend == p.n then 0 else s.bend, prod := PIdle)
  {
    var u := s;
    if s.prod.PWrap? {
      ReachNext(p, slots, s, Wrap);
      u := Apply(p, s, Wrap);
    }
    ReachNext(p, slots, u, Finish);
    t := Apply(p, u, Finish);
  }

  /** The rest of a sector is copied out. */
  lemma {:induction false} CopyBytes(p: Params, slots: seq<seq<byte>>, s: State, d: nat) returns (t: State)
    requires Reaches(p, slots, s) && Memory(p, s.slots) && s.bstart < p.n
    requires s.cons.CCopy? && s.cons.done == d <= p.b
    ensures Reaches(p, slots, t)
    ensures t == s.(delivered := s.delivered + s.slots[s.bstart][d..], cons := CCopy(s.cons.k, p.b))
    decreases p.b - d
  {
    if d == p.b {
      assert s.delivered + s.slots[s.bstart][d..] == s.delivered;
      t := s;
    } else {
      ReachNext(p, slots, s, Copy);
      var u := Apply(p, s, Copy);
      t := CopyBytes(p, slots, u, d + 1);
      assert u.delivered + s.slots[s.bstart][d + 1..] == s.delivered + s.slots[s.bstart][d..];
    }
  }

  /** The reader leaves its wait loop and finds the buffer not empty. */
  lemma BeginRead(p: Params, slots: seq<seq<byte>>, s: State) returns (t: State)
    requires Reaches(p, slots, s) && s.cons.CWant? && s.cons.k > 0 && s.bstart != s.bend
    ensures Reaches(p, slots, t) && t == s.(cons := CCopy(s.cons.k, 0))
  {
    ReachNext(p, slots, s, Poll);
    var s1 := Apply(p, s, Poll);
    ReachNext(p, slots, s1, Decide);
    t := Apply(p, s1, Decide);
  }

  /** One sector is read. */
  lemma ReadSector(p: Params, slots: seq<seq<byte>>, s: State) returns (t: State)
    requires ParamsOk(p) && Reaches(p, slots, s) && Memory(p, s.slots) && s.bstart < p.n
    requires s.cons.CWant? && s.cons.k > 0 && s.bstart != s.bend
    ensures Reaches(p, slots, t)
    ensures t == s.(delivered := s.delivered + s.slots[s.bstart], consumed := s.consumed + 1,
                    bstart := if p.startOnce then Next(p, s.bstart) else s.bstart + 1,
                    cons := if p.startOnce then CWant(s.cons.k - 1) else CWrap(s.cons.k - 1))
  {
    var s1 := BeginRead(p, slots, s);
    var s2 := CopyBytes(p, slots, s1, 0);
    assert s.slots[s.bstart][0..] == s.slots[s.bstart];
    ReachNext(p, slots, s2, Advance);
    t := Apply(p, s2, Advance);
  }

  /** The reader completes its advance. */
  lemma ReaderRewinds(p: Params, slots: seq<seq<byte>>, s: State) returns (t: State)
    requires Reaches(p, slots, s) && (s.cons.CWant? || s.cons.CWrap?)
    ensures Reaches(p, slots, t)
    ensures t == s.(bstart := if s.cons.CWrap? && s.bstart == p.n then 0 else s.bstart, cons := CWant(s.cons.k))
  {
    t := s;
    if s.cons.CWrap? {
      ReachNext(p, slots, s, Rewind);
      t := Apply(p, s, Rewind);
    }
  }

  // ---------------------------------------------------------------- two stores instead of one

  function Filled(b: nat, x: byte): (r: seq<byte>)
    ensures |r| == b && forall i :: 0 <= i < b ==> r[i] == x
  {
    seq(b, i => x)
  }

  ghost predicate AllZero(s: seq<byte>) {
    forall i :: 0 <= i < |s| ==> s[i] == 0
  }

  /** `i` sectors of zeros were written and read, one after the other. */
  ghost predicate Level(p: Params, s: State, i: nat) {
    && Memory(p, s.slots) && s.bstart == s.bend == i < p.n && s.writeoff == 0
    && s.prod == PIdle && s.cons.CWant? && s.cons.k + i == p.n + 1
    && |s.received| == |s.delivered| == Times(i, p.b) && AllZero(s.received)
  }

  lemma OneRound(p: Params, slots: seq<seq<byte>>, s: State, i: nat) returns (t: State)
    requires ParamsOk(p) && Reaches(p, slots, s) && Level(p, s, i) && i + 1 < p.n
    ensures Reaches(p, slots, t) && Level(p, t, i + 1)
  {
    var s1 := WriteSector(p, slots, s, Filled(p.b, 0));
    var s2 := WriterReturns(p, slots, s1);
    var s3 := ReadSector(p, slots, s2);
    t := ReaderRewinds(p, slots, s3);
    MulSplit(i, 1, p.b);
  }

  lemma {:induction false} Rounds(p: Params, slots: seq<seq<byte>>, i: nat) returns (t: State)
    requires ParamsOk(p) && Memory(p, slots) && i < p.n
    ensures Reaches(p, slots, t) && Level(p, t, i)
  {
    if i == 0 {
      ReachStart(p, slots);
      ReachNext(p, slots, Start(p, slots), Request(p.n + 1));
      t := Apply(p, Start(p, slots), Request(p.n + 1));
    } else {
      var s := Rounds(p, slots, i - 1);
      t := OneRound(p, slots, s, i - 1);
    }
  }

  /** If the stores to `bend` are seen apart: the reader empties the buffer while `bend` is n, finds 0 != n
      and reads sector 0 a second time. */
  lemma SplitEndFails(p: Params, slots: seq<seq<byte>>) returns (t: State)
    requires ParamsOk(p) && Memory(p, slots) && !p.endOnce
    ensures Reaches(p, slots, t) && |t.delivered| > |t.received|
  {
    var s := Rounds(p, slots, p.n - 1);
    var s1 := WriteSector(p, slots, s, Filled(p.b, 0));
    var s2 := ReadSector(p, slots, s1);
    var s3 := ReaderRewinds(p, slots, s2);
    var s4 := BeginRead(p, slots, s3);
    ReachNext(p, slots, s4, Copy);
    t := Apply(p, s4, Copy);
  }

  /** While `bstart` is n the writer never sees a full buffer. */
  lemma {:induction false} WriteLap(p: Params, slots: seq<seq<byte>>, s: State, m: nat) returns (t: State)
    requires ParamsOk(p) && p.endOnce && Reaches(p, slots, s) && Memory(p, s.slots) && m <= p.n
    requires s.bstart == p.n && s.bend == 0 && s.writeoff == 0 && s.prod == PIdle && AllZero(s.received)
    ensures Reaches(p, slots, t) && Memory(p, t.slots)
    ensures t ==
            s.(slots := t.slots, bend := if m == p.n then 0 else m, published := t.published, received := t.received)
    ensures AllZero(t.received) && |t.received| == |s.received| + Times(m, p.b)
  {
    if m == 0 {
      t := s;
    } else {
      var u := WriteLap(p, slots, s, m - 1);
      var v := WriteSector(p, slots, u, Filled(p.b, 0));
      t := WriterReturns(p, slots, v);
      MulSplit(m - 1, 1, p.b);
    }
  }

  /** If the stores to `bstart` are seen apart: while `bstart` is n the writer goes once around the buffer,
      and the reader then finds the newest sector where the oldest unread one was. */
  lemma SplitStartFails(p: Params, slots: seq<seq<byte>>) returns (t: State)
    requires ParamsOk(p) && Memory(p, slots) && p.endOnce && !p.startOnce
    ensures Reaches(p, slots, t) && !(t.delivered <= t.received)
  {
    var s := Rounds(p, slots, p.n - 1);
    var s1 := WriteSector(p, slots, s, Filled(p.b, 0));
    var s2 := WriterReturns(p, slots, s1);
    var s3 := ReadSector(p, slots, s2);
    var s4 := WriteLap(p, slots, s3, p.n);
    MulMono(1, p.n, p.b);
    t := ReadNewest(p, slots, s4);
  }

  lemma ReadNewest(p: Params, slots: seq<seq<byte>>, s: State) returns (t: State)
    requires ParamsOk(p) && p.endOnce && Reaches(p, slots, s) && Memory(p, s.slots)
    requires s.bstart == p.n && s.bend == 0 && s.writeoff == 0 && s.prod == PIdle && s.cons.CWrap? && s.cons.k > 0
    requires AllZero(s.received) && |s.delivered| < |s.received|
    ensures Reaches(p, slots, t) && !(t.delivered <= t.received)
  {
    var s1 := WriteSector(p, slots, s, Filled(p.b, 1));
    var s2 := ReaderRewinds(p, slots, s1);
    var s3 := BeginRead(p, slots, s2);
    ReachNext(p, slots, s3, Copy);
    t := Apply(p, s3, Copy);
    assert t.delivered[|s.delivered|] == 1 && t.received[|s.delivered|] == 0;
  }

  /** What the ring buffer is for: in every run the bytes handed out are a prefix of the bytes received. */
  ghost predicate AlwaysInOrder(p: Params) {
    forall slots: seq<seq<byte>>, acts: seq<Action>, states: seq<State> ::
      Memory(p, slots) && IsRun(p, slots, acts, states) ==> states[|acts|].delivered <= states[|acts|].received
  }

  /** For every buffer size and sector size this holds if and only if both advances are seen as one store. */
  lemma InOrderExactly(p: Params)
    requires ParamsOk(p)
    ensures AlwaysInOrder(p) <==> p.endOnce && p.startOnce
  {
    if p.endOnce && p.startOnce {
      forall slots: seq<seq<byte>>, acts: seq<Action>, states: seq<State>
        | Memory(p, slots) && IsRun(p, slots, acts, states)
        ensures states[|acts|].delivered <= states[|acts|].received
      {
        RunIsSafe(p, slots, acts, states, |acts|);
      }
    } else {
      SplitFails(p);
    }
  }

  lemma SplitFails(p: Params)
    requires ParamsOk(p) && !(p.endOnce && p.startOnce)
    ensures !AlwaysInOrder(p)
  {
    var slots := seq(p.n, i => Filled(p.b, 0));
    var t;
    if !p.endOnce {
      t := SplitEndFails(p, slots);
    } else {
      t := SplitStartFails(p, slots);
    }
    var acts: seq<Action>, states: seq<State> :| IsRun(p, slots, acts, states) && states[|acts|] == t;
  }
}
