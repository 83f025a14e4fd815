/** The single-producer single-consumer rings shared with interrupt handlers: key presses
    (kernel/drivers/keyboard.c) and received packets (kernel/net/ethernet.c), as interleaved
    loads and stores. */
module Ring {
  import Arith

  const KB_BUFFER_SIZE := 256
  const NET_RX_QUEUE_SIZE := 32

  /** Where the producer is in a push of `item`. */
  datatype Producer<T> =
    | Resting
    | Aimed(item: T, next: nat)      // next computed from head
    | Allowed(item: T, next: nat)    // next differed from tail
    | Stored(item: T, next: nat)     // the slot is written

  /** Where the consumer is in a pop. */
  datatype Consumer<T> =
    | Waiting
    | Looking(seen: nat)             // tail loaded
    | Taking                         // tail differed from head
    | Holding(item: T)               // the slot is read

  /** The ring, the two parties, and what has happened: the pushes that passed their check,
      the items the consumer got, and the number of items pending at each push that was
      dropped and at each pop that found nothing. */
  datatype State<T> = State(buf: seq<T>, head: nat, tail: nat, prod: Producer<T>, cons: Consumer<T>,
                            accepted: seq<T>, output: seq<T>, drops: seq<nat>, misses: seq<nat>)

  datatype Event<T> = BeginPush(item: T) | LoadTail | StorePart(part: T) | StoreItem | Publish
                    | BeginPop | LoadHead | LoadItem | StoreTail

  function Published<T>(s: State<T>): int {
    if s.prod.Allowed? || s.prod.Stored? then |s.accepted| - 1 else |s.accepted|
  }

  /** Items in the ring. */
  function Pending<T>(s: State<T>): nat {
    if Published(s) >= |s.output| then Published(s) - |s.output| else 0
  }

  /** One load or store; an event whose party is elsewhere does nothing. */
  function Next<T>(s: State<T>, e: Event<T>): State<T> {
    var n := |s.buf|;
    if n == 0 then s
    else
      match e
      case BeginPush(item) => if s.prod.Resting? then s.(prod := Aimed(item, (s.head + 1) % n)) else s
      case LoadTail =>
        if !s.prod.Aimed? then s
        else if s.prod.next == s.tail then s.(prod := Resting, drops := s.drops + [Pending(s)])
        else s.(prod := Allowed(s.prod.item, s.prod.next), accepted := s.accepted + [s.prod.item])
      case StorePart(part) => if s.prod.Allowed? && s.head < n then s.(buf := s.buf[s.head := part]) else s
      case StoreItem =>
        if s.prod.Allowed? && s.head < n
        then s.(prod := Stored(s.prod.item, s.prod.next), buf := s.buf[s.head := s.prod.item])
        else s
      case Publish => if s.prod.Stored? then s.(prod := Resting, head := s.prod.next) else s
      case BeginPop => if s.cons.Waiting? then s.(cons := Looking(s.tail)) else s
      case LoadHead =>
        if !s.cons.Looking? then s
        else if s.cons.seen == s.head then s.(cons := Waiting, misses := s.misses + [Pending(s)])
        else s.(cons := Taking)
      case LoadItem =>
        if (s.cons.Taking? || s.cons.Holding?) && s.tail < n then s.(cons := Holding(s.buf[s.tail])) else s
      case StoreTail =>
        if s.cons.Holding? then s.(cons := Waiting, tail := (s.tail + 1) % n, output := s.output + [s.cons.item]) else s
  }

  function Start<T>(buf: seq<T>): State<T> {
    State(buf, 0, 0, Resting, Waiting, [], [], [], [])
  }

  function Run<T>(s: State<T>, es: seq<Event<T>>): State<T>
    decreases |es|
  {
    if es == [] then s else Run(Next(s, es[0]), es[1..])
  }

  // ----- Indices -----

  lemma Distinct(n: nat, a: nat, b: nat)
    requires n > 0 && a <= b < a + n
    ensures a % n == b % n <==> a == b
  {
    var p, q := a / n, b / n;
    assert a == n * p + a % n && b == n * q + b % n;
    if a % n == b % n {
      if p < q {
        Arith.MulStep(n, p, q);
      } else {
        Monotone(n, q, p);
      }
    }
  }

  lemma Monotone(n: nat, p: nat, q: nat)
    requires p <= q
    ensures n * p <= n * q
  {
    if p < q {
      Arith.MulStep(n, p, q);
    }
  }

  lemma Succ(n: nat, a: nat)
    requires n > 0
    ensures (a % n + 1) % n == (a + 1) % n
  {
    var q, r := a / n, a % n;
    if r + 1 < n {
      Arith.Unique(a + 1, n, q, r + 1);
      Arith.Unique(r + 1, n, 0, r + 1);
    } else {
      NextMultiple(n, q);
      Arith.Unique(a + 1, n, q + 1, 0);
      Arith.Unique(n, n, 1, 0);
    }
  }

  lemma NextMultiple(n: nat, q: nat)
    ensures n * (q + 1) == n * q + n
  {
  }

  // ----- The invariant -----

  /** The slots of the pending items hold them. */
  ghost predicate Slots<T>(buf: seq<T>, accepted: seq<T>, from: nat, to: nat) {
    && 0 < |buf| && from <= to <= |accepted|
    && forall k :: from <= k < to ==> buf[k % |buf|] == accepted[k]
  }

  ghost predicate Inv<T>(s: State<T>) {
    var n, h, t := |s.buf|, Published(s), |s.output|;
    && n > 1 && 0 <= h && t <= h < t + n && s.head == h % n && s.tail == t % n
    && s.output <= s.accepted && Slots(s.buf, s.accepted, t, h)
    && (!s.prod.Resting? ==> s.prod.next == (h + 1) % n)
    && (s.prod.Allowed? || s.prod.Stored? ==> h < t + n - 1 && s.accepted[h] == s.prod.item)
    && (s.prod.Stored? ==> s.buf[s.head] == s.prod.item)
    && (s.cons.Looking? ==> s.cons.seen == s.tail)
    && (s.cons.Taking? || s.cons.Holding? ==> t < h)
    && (s.cons.Holding? ==> s.cons.item == s.accepted[t])
    && (forall i :: 0 <= i < |s.drops| ==> s.drops[i] == n - 1)
    && (forall i :: 0 <= i < |s.misses| ==> s.misses[i] == 0)
  }

  lemma StartInv<T>(buf: seq<T>)
    requires |buf| > 1
    ensures Inv(Start(buf))
  {
  }

  /** The slot the producer may write is none of the pending ones. */
  lemma StoreKeeps<T>(buf: seq<T>, accepted: seq<T>, from: nat, to: nat, item: T)
    requires Slots(buf, accepted, from, to) && to < from + |buf|
    ensures Slots(buf[to % |buf| := item], accepted, from, to)
  {
    forall k | from <= k < to ensures k % |buf| != to % |buf| {
      Distinct(|buf|, k, to);
    }
  }

  lemma FullCheck(n: nat, h: nat, t: nat)
    requires n > 1 && t <= h < t + n
    ensures (h + 1) % n == t % n <==> h == t + n - 1
  {
    if h == t + n - 1 {
      var q := t / n;
      assert h + 1 == n * (q + 1) + t % n by {
        assert n * (q + 1) == n * q + n;
      }
      Arith.Unique(h + 1, n, q + 1, t % n);
    } else {
      Distinct(n, t, h + 1);
    }
  }

  lemma ProducerStep<T>(s: State<T>, e: Event<T>)
    requires Inv(s) && (e.BeginPush? || e.LoadTail? || e.StorePart? || e.StoreItem? || e.Publish?)
    ensures Inv(Next(s, e))
  {
    var n, h, t := |s.buf|, Published(s), |s.output|;
    match e
    case BeginPush(_) => Succ(n, h);
    case LoadTail =>
      if s.prod.Aimed? {
        FullCheck(n, h, t);
      }
    case StorePart(part) =>
      if s.prod.Allowed? {
        hide Slots;
        StoreKeeps(s.buf, s.accepted, t, h, part);
      }
    case StoreItem =>
      if s.prod.Allowed? {
        hide Slots;
        StoreKeeps(s.buf, s.accepted, t, h, s.prod.item);
      }
    case Publish =>
  }

  lemma ConsumerStep<T>(s: State<T>, e: Event<T>)
    requires Inv(s) && (e.BeginPop? || e.LoadHead? || e.LoadItem? || e.StoreTail?)
    ensures Inv(Next(s, e))
  {
    var n, h, t := |s.buf|, Published(s), |s.output|;
    match e
    case BeginPop =>
    case LoadHead => Distinct(n, t, h);
    case LoadItem =>
    case StoreTail => Succ(n, t);
  }

  lemma StepInv<T>(s: State<T>, e: Event<T>)
    requires Inv(s)
    ensures Inv(Next(s, e)) && |Next(s, e).buf| == |s.buf|
  {
    hide Inv;
    if e.BeginPop? || e.LoadHead? || e.LoadItem? || e.StoreTail? {
      ConsumerStep(s, e);
    } else {
      ProducerStep(s, e);
    }
  }

  lemma {:induction false} RunInv<T>(s: State<T>, es: seq<Event<T>>)
    requires Inv(s)
    ensures Inv(Run(s, es)) && |Run(s, es).buf| == |s.buf|
    decreases |es|
  {
    hide Inv, Next;
    if es != [] {
      StepInv(s, es[0]);
      RunInv(Next(s, es[0]), es[1..]);
    }
  }

  /** No load or store changes the slot of an item that is still to be read. */
  lemma PendingUntouched<T>(s: State<T>, e: Event<T>, k: nat)
    requires Inv(s) && |s.output| <= k < Published(s)
    ensures Next(s, e).buf[k % |s.buf|] == s.buf[k % |s.buf|] == s.accepted[k]
  {
    Distinct(|s.buf|, k, Published(s));
  }

  /** For every interleaving: the consumer's output is a prefix, in order, of the pushes that
      were accepted; nothing accepted is lost; a push is dropped only when all slots but one
      were full at its check, and a pop comes back empty only when the ring was empty. */
  lemma EveryInterleaving<T>(buf: seq<T>, es: seq<Event<T>>)
    requires |buf| > 1
    ensures var s := Run(Start(buf), es);
            && s.output <= s.accepted
            && |s.accepted| == |s.output| + Pending(s) + (if s.prod.Allowed? || s.prod.Stored? then 1 else 0)
            && Pending(s) < |buf|
            && (forall i :: 0 <= i < |s.drops| ==> s.drops[i] == |buf| - 1)
            && (forall i :: 0 <= i < |s.misses| ==> s.misses[i] == 0)
  {
    StartInv(buf);
    hide Run, Slots;
    RunInv(Start(buf), es);
  }

  /** The two rings of the kernel: key presses are dropped only with 255 pending, packets
      only with 31. */
  lemma KernelRings(keys: seq<char>, es: seq<Event<char>>, packets: seq<seq<int>>, fs: seq<Event<seq<int>>>, i: nat)
    requires |keys| == KB_BUFFER_SIZE && |packets| == NET_RX_QUEUE_SIZE
    ensures i < |Run(Start(keys), es).drops| ==> Run(Start(keys), es).drops[i] == 255
    ensures i < |Run(Start(packets), fs).drops| ==> Run(Start(packets), fs).drops[i] == 31
  {
    hide Run;
    EveryInterleaving(keys, es);
    EveryInterleaving(packets, fs);
  }

  // ----- Calls that are not interrupted -----

  /** A push that is not interrupted puts its item into a ring that is not full. */
  lemma PushGoesIn<T>(s: State<T>, item: T)
    requires 0 < |s.buf| && s.head < |s.buf| && s.prod.Resting? && (s.head + 1) % |s.buf| != s.tail
    ensures Run(s, [BeginPush(item), LoadTail, StoreItem, Publish]) ==
            s.(buf := s.buf[s.head := item], head := (s.head + 1) % |s.buf|, accepted := s.accepted + [item])
  {
    var s1 := Next(s, BeginPush(item));
    var s2 := Next(s1, LoadTail);
    var s3 := Next(s2, StoreItem);
    FourSteps(s, BeginPush(item), LoadTail, StoreItem, Publish);
  }

  /** A push on a full ring changes nothing but the count of drops. */
  lemma PushDropped<T>(s: State<T>, item: T)
    requires 0 < |s.buf| && s.prod.Resting? && (s.head + 1) % |s.buf| == s.tail
    ensures Run(s, [BeginPush(item), LoadTail, StoreItem, Publish]) ==
            s.(drops := s.drops + [Pending(s)])
  {
    FourSteps(s, BeginPush(item), LoadTail, StoreItem, Publish);
  }

  /** A pop that is not interrupted takes the item at the tail, if there is one. */
  lemma PopComesOut<T>(s: State<T>)
    requires 0 < |s.buf| && s.tail < |s.buf| && s.cons.Waiting? && s.tail != s.head
    ensures Run(s, [BeginPop, LoadHead, LoadItem, StoreTail]) ==
            s.(tail := (s.tail + 1) % |s.buf|, output := s.output + [s.buf[s.tail]])
  {
    FourSteps(s, BeginPop, LoadHead, LoadItem, StoreTail);
    var s1 := Next(s, BeginPop);
    assert s1 == s.(cons := Looking(s.tail));
    var s2 := Next(s1, LoadHead);
    assert s2 == s.(cons := Taking);
    var s3 := Next(s2, LoadItem);
    assert s3 == s.(cons := Holding(s.buf[s.tail]));
    hide Run;
    assert Next(s3, StoreTail) == s.(tail := (s.tail + 1) % |s.buf|, output := s.output + [s.buf[s.tail]]);
  }

  /** On an empty ring it finds nothing. */
  lemma PopMisses<T>(s: State<T>)
    requires 0 < |s.buf| && s.cons.Waiting? && s.tail == s.head
    ensures Run(s, [BeginPop, LoadHead, LoadItem, StoreTail]) == s.(misses := s.misses + [Pending(s)])
  {
    FourSteps(s, BeginPop, LoadHead, LoadItem, StoreTail);
    hide Run;
    var s1 := Next(s, BeginPop);
    assert s1 == s.(cons := Looking(s.tail));
    var s2 := Next(s1, LoadHead);
    SamePending(s, s1);
    hide Pending;
    assert s2 == s.(misses := s.misses + [Pending(s)]);
    assert Next(s2, LoadItem) == s2;
    assert Next(s2, StoreTail) == s2;
  }

  lemma SamePending<T>(s: State<T>, s1: State<T>)
    requires s1 == s.(cons := s1.cons)
    ensures Pending(s1) == Pending(s)
  {
  }

  lemma FourSteps<T>(s: State<T>, a: Event<T>, b: Event<T>, c: Event<T>, d: Event<T>)
    ensures Run(s, [a, b, c, d]) == Next(Next(Next(Next(s, a), b), c), d)
  {
    hide Next;
    var s1 := Next(s, a);
    var s2 := Next(s1, b);
    var s3 := Next(s2, c);
    assert [a, b, c, d][1..] == [b, c, d] && [b, c, d][1..] == [c, d] && [c, d][1..] == [d] && [d][1..] == [];
    assert Run(s3, [d]) == Next(s3, d);
    assert Run(s2, [c, d]) == Run(s3, [d]);
    assert Run(s1, [b, c, d]) == Run(s2, [c, d]);
  }
}
