/**
 * The multi-producer single-consumer queue as a transition system: each action is one
 * access to memory that another thread can see, and any thread may move next.
 */
module QueueProtocol {
  import opened Bytes

  type Address = int

  /** What a node's `data_ptr_` is: never set, owning a value, owning a moved-from value, dangling, or null. */
  datatype Payload<T> = Unset | Holding(value: T) | MovedFrom | Dangling | Null

  /** A call of `enqueue` under way: its node is built, or also exchanged into `head_` but not yet linked. */
  datatype Call<T> = Built(value: T) | Exchanged(prevhead: Address)

  /** The consumer's place in `dequeue` or `empty`, with its two local pointers. */
  datatype Consumer =
    | Outside
    | HasTail(tail: Address)
    | HasNext(tail: Address, next: Address)
    | ValueMoved(tail: Address, next: Address)
    | ValueDeleted(tail: Address, next: Address)
    | PointerCleared(tail: Address, next: Address)
    | TailStored(tail: Address, next: Address)

  /**
   * Memory, as one map for each field of a node (an address in neither map is not
   * allocated); the two atomics; the threads: any number of producers, each known by the
   * node its current call built, and one consumer. Then history that no action reads: the
   * nodes from the oldest still allocated to the newest, every value in the order of the
   * exchanges, every value handed to the consumer, and those exchanged but not handed over.
   */
  datatype State<T> = State(
    data: map<Address, Payload<T>>,
    next: map<Address, Option<Address>>,
    head: Address,
    tail: Address,
    calls: map<Address, Call<T>>,
    consumer: Consumer,
    chain: seq<Address>,
    log: seq<T>,
    out: seq<T>,
    waiting: seq<T>)

  /**
   * `Build` gets whatever address the allocator returns; it may have been used and freed
   * before. `empty` and `dequeue` begin alike; `Leave` ends an `empty` that has found a value.
   */
  datatype Action<T> =
    | Build(node: Address, value: T)
    | Exchange(node: Address)
    | Link(node: Address)
    | LoadTail
    | LoadNext
    | Leave
    | MoveValue
    | DeleteValue
    | ClearPointer
    | StoreTail
    | DeleteNode

  /** `Fault`: the action touched freed memory, followed a bad payload pointer, freed twice or leaked. */
  datatype Effect<T> = Disabled | Fault | Next(state: State<T>)

  predicate Live<T>(s: State<T>, n: Address) {
    n in s.data && n in s.next
  }

  /** `n`'s payload is still allocated. */
  predicate OwnsValue<T>(s: State<T>, n: Address) {
    Live(s, n) && (s.data[n].Holding? || s.data[n].MovedFrom?)
  }

  function Initial<T>(dummy: Address): State<T> {
    State(map[dummy := Unset], map[dummy := None], dummy, dummy, map[], Outside, [dummy], [], [], [])
  }

  // `enqueue`

  function AfterBuild<T>(s: State<T>, n: Address, value: T): State<T> {
    s.(data := s.data[n := Holding(value)], next := s.next[n := None], calls := s.calls[n := Built(value)])
  }

  function AfterExchange<T>(s: State<T>, n: Address, value: T): State<T> {
    s.(head := n, calls := s.calls[n := Exchanged(s.head)],
       chain := s.chain + [n], log := s.log + [value], waiting := s.waiting + [value])
  }

  function AfterLink<T>(s: State<T>, n: Address, prevhead: Address): State<T> {
    s.(next := s.next[prevhead := Some(n)], calls := s.calls - {n})
  }

  // `dequeue`

  function AfterMove<T>(s: State<T>, t: Address, n: Address, value: T): State<T> {
    s.(data := s.data[n := MovedFrom], consumer := ValueMoved(t, n),
       out := s.out + [value], waiting := if s.waiting == [] then [] else s.waiting[1..])
  }

  function AfterDelete<T>(s: State<T>, t: Address): State<T> {
    s.(data := s.data - {t}, next := s.next - {t}, consumer := Outside,
       chain := if s.chain == [] then [] else s.chain[1..])
  }

  function Consume<T>(s: State<T>, a: Action<T>): Effect<T> {
    match (a, s.consumer)
    case (LoadTail, Outside) => Next(s.(consumer := HasTail(s.tail)))
    case (LoadNext, HasTail(t)) =>
      if !Live(s, t) then Fault
      else if s.next[t].None? then Next(s.(consumer := Outside))
      else Next(s.(consumer := HasNext(t, s.next[t].value)))
    case (Leave, HasNext(_, _)) => Next(s.(consumer := Outside))
    case (MoveValue, HasNext(t, n)) =>
      if !Live(s, n) || !s.data[n].Holding? then Fault else Next(AfterMove(s, t, n, s.data[n].value))
    case (DeleteValue, ValueMoved(t, n)) =>
      if !OwnsValue(s, n) then Fault else Next(s.(data := s.data[n := Dangling], consumer := ValueDeleted(t, n)))
    case (ClearPointer, ValueDeleted(t, n)) =>
      if !Live(s, n) || OwnsValue(s, n) then Fault
      else Next(s.(data := s.data[n := Null], consumer := PointerCleared(t, n)))
    case (StoreTail, PointerCleared(t, n)) => Next(s.(tail := n, consumer := TailStored(t, n)))
    case (DeleteNode, TailStored(t, n)) =>
      if !Live(s, t) || OwnsValue(s, t) then Fault else Next(AfterDelete(s, t))
    case _ => Disabled
  }

  function Do<T>(s: State<T>, a: Action<T>): Effect<T> {
    match a
    case Build(n, value) => if n in s.data || n in s.next then Disabled else Next(AfterBuild(s, n, value))
    case Exchange(n) =>
      if n in s.calls && s.calls[n].Built? then Next(AfterExchange(s, n, s.calls[n].value)) else Disabled
    case Link(n) =>
      if !(n in s.calls && s.calls[n].Exchanged?) then Disabled
      else if !Live(s, s.calls[n].prevhead) then Fault
      else Next(AfterLink(s, n, s.calls[n].prevhead))
    case _ => Consume(s, a)
  }

  /** A whole schedule; it stops at the first action that is not enabled or faults. */
  function Run<T>(s: State<T>, schedule: seq<Action<T>>): Effect<T>
    decreases |schedule|
  {
    if schedule == [] then Next(s)
    else match Do(s, schedule[0])
      case Next(s') => Run(s', schedule[1..])
      case stop => stop
  }

  // ---- the invariant ----

  /** The chain runs from the oldest node to `head_`; nothing is allocated but it and the nodes being enqueued. */
  ghost predicate ChainOk<T>(s: State<T>) {
    && s.chain != []
    && s.head == s.chain[|s.chain| - 1]
    && (forall i, j :: 0 <= i < j < |s.chain| ==> s.chain[i] != s.chain[j])
    && (forall i :: 0 <= i < |s.chain| ==> Live(s, s.chain[i]))
    && (forall x :: x in s.data || x in s.next ==> x in s.chain || x in s.calls)
  }

  /** A built node is nowhere but in its own call; an exchanged one follows its call's `prevhead` in the chain. */
  ghost predicate CallsOk<T>(s: State<T>)
    requires ChainOk(s)
  {
    && s.chain[0] !in s.calls
    && (forall i :: 0 < i < |s.chain| && s.chain[i] in s.calls ==> s.calls[s.chain[i]] == Exchanged(s.chain[i - 1]))
    && (forall n :: n in s.calls ==>
                      match s.calls[n]
                      case Built(v) => n !in s.chain && Live(s, n) && s.data[n] == Holding(v) && s.next[n] == None
                      case Exchanged(_) => n in s.chain)
  }

  /** Each node points to its successor, unless the successor's call has still to store that link. */
  ghost predicate LinksOk<T>(s: State<T>)
    requires ChainOk(s)
  {
    && s.next[s.head] == None
    && forall i :: 0 < i < |s.chain| ==>
                     s.next[s.chain[i - 1]] == if s.chain[i] in s.calls then None else Some(s.chain[i])
  }

  /** How many of the oldest nodes no longer hold a value: the spent one, and the one being emptied. */
  function Spent(c: Consumer): nat {
    if c.Outside? || c.HasTail? || c.HasNext? then 1 else 2
  }

  ghost predicate ValuesOk<T>(s: State<T>)
    requires ChainOk(s)
  {
    var k := Spent(s.consumer);
    && s.log == s.out + s.waiting
    && |s.chain| == |s.waiting| + k
    && (forall i :: k <= i < |s.chain| ==> s.data[s.chain[i]] == Holding(s.waiting[i - k]))
    && (s.data[s.chain[0]].Unset? || s.data[s.chain[0]].Null?)
    && (k == 2 ==> s.data[s.chain[1]] ==
                   if s.consumer.ValueMoved? then MovedFrom else if s.consumer.ValueDeleted? then Dangling else Null)
  }

  ghost predicate ConsumerOk<T>(s: State<T>)
    requires ChainOk(s)
  {
    && s.tail == (if s.consumer.TailStored? then s.consumer.next else s.chain[0])
    && (!s.consumer.Outside? ==> s.consumer.tail == s.chain[0])
    && (!s.consumer.Outside? && !s.consumer.HasTail? ==>
          |s.chain| > 1 && s.consumer.next == s.chain[1] && s.chain[1] !in s.calls)
  }

  ghost predicate Inv<T>(s: State<T>) {
    ChainOk(s) && CallsOk(s) && LinksOk(s) && ValuesOk(s) && ConsumerOk(s)
  }

  // ---- every action keeps it ----

  lemma InitialOk<T>(dummy: Address)
    ensures Inv(Initial<T>(dummy))
  {
  }

  lemma BuildKeepsChain<T>(s: State<T>, n: Address, value: T)
    requires ChainOk(s) && CallsOk(s) && n !in s.data && n !in s.next
    ensures n !in s.chain && n !in s.calls
    ensures ChainOk(AfterBuild(s, n, value)) && CallsOk(AfterBuild(s, n, value))
  {
    assert n !in s.chain && n !in s.calls;
    var s' := AfterBuild(s, n, value);
    assert ChainOk(s') by { hide CallsOk; }
    assert CallsOk(s');
  }

  lemma BuildKeepsLinks<T>(s: State<T>, n: Address, value: T)
    requires ChainOk(s) && LinksOk(s) && n !in s.chain && ChainOk(AfterBuild(s, n, value))
    ensures LinksOk(AfterBuild(s, n, value))
  {
  }

  lemma BuildKeepsValues<T>(s: State<T>, n: Address, value: T)
    requires ChainOk(s) && ValuesOk(s) && n !in s.chain && ChainOk(AfterBuild(s, n, value))
    ensures ValuesOk(AfterBuild(s, n, value))
  {
  }

  lemma BuildKeeps<T>(s: State<T>, n: Address, value: T)
    requires Inv(s) && n !in s.data && n !in s.next
    ensures Inv(AfterBuild(s, n, value))
  {
    BuildKeepsChain(s, n, value);
    BuildKeepsLinks(s, n, value);
    BuildKeepsValues(s, n, value);
    assert |s.chain| > 1 ==> s.chain[1] in s.chain;
    hide CallsOk, LinksOk, ValuesOk, ChainOk;
  }

  lemma ExchangeKeepsChain<T>(s: State<T>, n: Address, value: T)
    requires ChainOk(s) && CallsOk(s) && n in s.calls && s.calls[n] == Built(value)
    ensures ChainOk(AfterExchange(s, n, value))
  {
    assert n !in s.chain && Live(s, n);
    hide CallsOk;
    var s' := AfterExchange(s, n, value);
    assert forall i :: 0 <= i < |s.chain| ==> s'.chain[i] == s.chain[i] && s.chain[i] in s.chain;
    assert s'.chain[|s.chain|] == n;
  }

  lemma NotInChain<T>(s: State<T>, n: Address, value: T)
    requires ChainOk(s) && CallsOk(s) && n in s.calls && s.calls[n] == Built(value)
    ensures n !in s.chain && s.chain[|s.chain| - 1] == s.head && s.chain != []
  {
  }

  lemma AppendIn<T>(s: seq<T>, n: T)
    ensures forall i :: 0 <= i < |s| ==> (s + [n])[i] == s[i]
    ensures (s + [n])[|s|] == n && forall x :: x in s + [n] <==> x in s || x == n
  {
  }

  /** The calls of nodes in the chain, by position. */
  lemma ExchangeKeepsChained<T>(s: State<T>, n: Address, value: T, i: nat)
    requires ChainOk(s) && CallsOk(s) && n in s.calls && s.calls[n] == Built(value)
    requires 0 < i <= |s.chain|
    ensures var s' := AfterExchange(s, n, value);
            s'.chain[i] in s'.calls ==> s'.calls[s'.chain[i]] == Exchanged(s'.chain[i - 1])
  {
    NotInChain(s, n, value);
    AppendIn(s.chain, n);
    assert i < |s.chain| ==> s.chain[i] in s.chain;
    hide ChainOk;
  }

  lemma ExchangeKeepsCall<T>(s: State<T>, n: Address, value: T, x: Address)
    requires ChainOk(s) && CallsOk(s) && n in s.calls && s.calls[n] == Built(value) && x in s.calls
    ensures var s' := AfterExchange(s, n, value);
            match s'.calls[x]
            case Built(v) => x !in s'.chain && Live(s', x) && s'.data[x] == Holding(v) && s'.next[x] == None
            case Exchanged(_) => x in s'.chain
  {
    AppendIn(s.chain, n);
    hide ChainOk;
  }

  lemma ExchangeKeepsCalls<T>(s: State<T>, n: Address, value: T)
    requires ChainOk(s) && CallsOk(s) && n in s.calls && s.calls[n] == Built(value)
    requires ChainOk(AfterExchange(s, n, value))
    ensures CallsOk(AfterExchange(s, n, value))
  {
    NotInChain(s, n, value);
    assert s.chain[0] !in s.calls && s.chain[0] in s.chain;
    hide ChainOk;
    var s' := AfterExchange(s, n, value);
    forall i | 0 < i < |s'.chain| && s'.chain[i] in s'.calls
      ensures s'.calls[s'.chain[i]] == Exchanged(s'.chain[i - 1])
    {
      ExchangeKeepsChained(s, n, value, i);
    }
    forall x | x in s'.calls
      ensures match s'.calls[x]
              case Built(v) => x !in s'.chain && Live(s', x) && s'.data[x] == Holding(v) && s'.next[x] == None
              case Exchanged(_) => x in s'.chain
    {
      ExchangeKeepsCall(s, n, value, x);
    }
  }

  lemma ExchangeKeepsLinks<T>(s: State<T>, n: Address, value: T)
    requires ChainOk(s) && CallsOk(s) && LinksOk(s) && n in s.calls && s.calls[n] == Built(value)
    requires ChainOk(AfterExchange(s, n, value))
    ensures LinksOk(AfterExchange(s, n, value))
  {
    assert n !in s.chain && s.next[n] == None;
    hide CallsOk;
    AppendIn(s.chain, n);
    assert forall i :: 0 <= i < |s.chain| ==> s.chain[i] in s.chain;
  }

  lemma ExchangeKeepsValues<T>(s: State<T>, n: Address, value: T)
    requires ChainOk(s) && ValuesOk(s) && n in s.data && s.data[n] == Holding(value)
    requires ChainOk(AfterExchange(s, n, value))
    ensures ValuesOk(AfterExchange(s, n, value))
  {
    assert s.out + (s.waiting + [value]) == s.log + [value];
  }

  lemma ExchangeKeeps<T>(s: State<T>, n: Address)
    requires Inv(s) && n in s.calls && s.calls[n].Built?
    ensures Inv(AfterExchange(s, n, s.calls[n].value))
  {
    var value := s.calls[n].value;
    assert n in s.data && s.data[n] == Holding(value) && n !in s.chain;
    assert |s.chain| > 1 ==> s.chain[1] in s.chain;
    hide ChainOk, CallsOk, LinksOk, ValuesOk;
    assert s.chain != [] by { NotEmpty(s); }
    ExchangeKeepsChain(s, n, value);
    ExchangeKeepsCalls(s, n, value);
    ExchangeKeepsLinks(s, n, value);
    ExchangeKeepsValues(s, n, value);
  }

  lemma NotEmpty<T>(s: State<T>)
    requires ChainOk(s)
    ensures s.chain != []
  {
  }

  /** The node a producer is about to link from is alive: the consumer cannot pass an unlinked successor. */
  lemma LinkKeeps<T>(s: State<T>, n: Address)
    requires Inv(s) && n in s.calls && s.calls[n].Exchanged?
    ensures Live(s, s.calls[n].prevhead) && Inv(AfterLink(s, n, s.calls[n].prevhead))
  {
    var i :| 0 <= i < |s.chain| && s.chain[i] == n;
    LinkKeepsChain(s, n, i);
    LinkKeepsValues(s, n, s.calls[n].prevhead);
    hide ChainOk, CallsOk, LinksOk, ValuesOk;
  }

  lemma LinkKeepsValues<T>(s: State<T>, n: Address, p: Address)
    requires ChainOk(s) && ValuesOk(s) && ChainOk(AfterLink(s, n, p))
    ensures ValuesOk(AfterLink(s, n, p))
  {
  }

  lemma LinkKeepsChain<T>(s: State<T>, n: Address, i: int)
    requires ChainOk(s) && CallsOk(s) && LinksOk(s) && n in s.calls && s.calls[n].Exchanged?
    requires 0 <= i < |s.chain| && s.chain[i] == n
    ensures Live(s, s.calls[n].prevhead)
    ensures var s' := AfterLink(s, n, s.calls[n].prevhead); ChainOk(s') && CallsOk(s') && LinksOk(s')
  {
    var s' := AfterLink(s, n, s.chain[i - 1]);
    assert ChainOk(s');
    assert CallsOk(s') by { hide LinksOk; }
    assert LinksOk(s');
  }

  /** `s` with the consumer elsewhere and `tail_` set anew: all that its loads and its one store change. */
  function Moved<T>(s: State<T>, tail: Address, place: Consumer): State<T> {
    s.(tail := tail, consumer := place)
  }

  lemma MovedKeepsMemory<T>(s: State<T>, tail: Address, place: Consumer)
    requires ChainOk(s) && CallsOk(s) && LinksOk(s)
    ensures var s' := Moved(s, tail, place); ChainOk(s') && CallsOk(s') && LinksOk(s')
  {
  }

  lemma MovedKeepsValues<T>(s: State<T>, tail: Address, place: Consumer)
    requires ChainOk(s) && ValuesOk(s) && Spent(place) == Spent(s.consumer) && !place.ValueMoved? &&
             !place.ValueDeleted?
    requires !s.consumer.ValueMoved? && !s.consumer.ValueDeleted?
    requires ChainOk(Moved(s, tail, place))
    ensures ValuesOk(Moved(s, tail, place))
  {
  }

  lemma MovedKeeps<T>(s: State<T>, tail: Address, place: Consumer)
    requires Inv(s) && Spent(place) == Spent(s.consumer) && !place.ValueMoved? && !place.ValueDeleted?
    requires !s.consumer.ValueMoved? && !s.consumer.ValueDeleted?
    requires ChainOk(Moved(s, tail, place)) ==> ConsumerOk(Moved(s, tail, place))
    ensures Inv(Moved(s, tail, place))
  {
    hide ChainOk, CallsOk, LinksOk, ValuesOk, ConsumerOk, Spent;
    MovedKeepsMemory(s, tail, place);
    MovedKeepsValues(s, tail, place);
  }

  lemma LoadTailKeeps<T>(s: State<T>)
    requires Inv(s) && s.consumer.Outside?
    ensures Inv(s.(consumer := HasTail(s.tail)))
  {
    MovedKeeps(s, s.tail, HasTail(s.tail));
  }

  lemma LoadNextKeeps<T>(s: State<T>)
    requires Inv(s) && s.consumer.HasTail?
    ensures Live(s, s.consumer.tail)
    ensures var n := s.next[s.consumer.tail];
            Inv(s.(consumer := if n.None? then Outside else HasNext(s.consumer.tail, n.value)))
  {
    var t := s.consumer.tail;
    assert t == s.chain[0] && s.tail == t;
    if |s.chain| > 1 {
      assert s.next[s.chain[1 - 1]] == if s.chain[1] in s.calls then None else Some(s.chain[1]);
    }
    MovedKeeps(s, t, if s.next[t].None? then Outside else HasNext(t, s.next[t].value));
  }

  lemma LeaveKeeps<T>(s: State<T>)
    requires Inv(s) && s.consumer.HasNext?
    ensures Inv(s.(consumer := Outside))
  {
    MovedKeeps(s, s.tail, Outside);
  }

  lemma StoreTailKeeps<T>(s: State<T>)
    requires Inv(s) && s.consumer.PointerCleared?
    ensures Inv(s.(tail := s.consumer.next, consumer := TailStored(s.consumer.tail, s.consumer.next)))
  {
    MovedKeeps(s, s.consumer.next, TailStored(s.consumer.tail, s.consumer.next));
  }

  /** `s` with another payload in the second node: all that the middle of `dequeue` changes in memory. */
  ghost predicate PayloadOf<T>(s: State<T>, s': State<T>, p: Payload<T>)
    requires ChainOk(s)
  {
    && |s.chain| > 1 && s'.data == s.data[s.chain[1] := p] && s'.next == s.next
    && s'.chain == s.chain && s'.head == s.head && s'.calls == s.calls
  }

  lemma PayloadKeepsChain<T>(s: State<T>, s': State<T>, p: Payload<T>)
    requires ChainOk(s) && PayloadOf(s, s', p)
    ensures ChainOk(s')
  {
  }

  lemma PayloadKeepsCalls<T>(s: State<T>, s': State<T>, p: Payload<T>)
    requires ChainOk(s) && CallsOk(s) && PayloadOf(s, s', p) && ChainOk(s')
    ensures CallsOk(s')
  {
  }

  lemma PayloadKeepsLinks<T>(s: State<T>, s': State<T>, p: Payload<T>)
    requires ChainOk(s) && LinksOk(s) && PayloadOf(s, s', p) && ChainOk(s')
    ensures LinksOk(s')
  {
  }

  lemma MoveKeepsValues<T>(s: State<T>, s': State<T>)
    requires ChainOk(s) && ValuesOk(s) && Spent(s.consumer) == 1 && PayloadOf(s, s', MovedFrom) && ChainOk(s')
    requires s.waiting != [] && s'.log == s.log && s'.out == s.out + [s.waiting[0]] && s'.waiting == s.waiting[1..]
    requires s'.consumer.ValueMoved?
    ensures ValuesOk(s')
  {
    assert s'.out + s'.waiting == s.out + s.waiting;
  }

  lemma MoveKeeps<T>(s: State<T>)
    requires Inv(s) && s.consumer.HasNext?
    ensures var n := s.consumer.next;
            Live(s, n) && s.data[n].Holding? && Inv(AfterMove(s, s.consumer.tail, n, s.data[n].value))
  {
    var n := s.consumer.next;
    assert n == s.chain[1] && |s.waiting| > 0 && s.data[s.chain[1]] == Holding(s.waiting[0]);
    hide ChainOk, CallsOk, LinksOk, ValuesOk;
    assert Live(s, n) by { ChainIsLive(s, 1); }
    var s' := AfterMove(s, s.consumer.tail, n, s.data[n].value);
    PayloadKeepsChain(s, s', MovedFrom);
    PayloadKeepsCalls(s, s', MovedFrom);
    PayloadKeepsLinks(s, s', MovedFrom);
    MoveKeepsValues(s, s');
  }

  lemma ChainIsLive<T>(s: State<T>, i: nat)
    requires ChainOk(s) && i < |s.chain|
    ensures Live(s, s.chain[i])
  {
  }

  lemma PayloadKeepsValues<T>(s: State<T>, s': State<T>, p: Payload<T>)
    requires ChainOk(s) && ValuesOk(s) && Spent(s.consumer) == 2 && PayloadOf(s, s', p) && ChainOk(s')
    requires s'.log == s.log && s'.out == s.out && s'.waiting == s.waiting
    requires (s'.consumer.ValueDeleted? && p.Dangling?) || (s'.consumer.PointerCleared? && p.Null?)
    ensures ValuesOk(s')
  {
  }

  lemma DeleteValueKeeps<T>(s: State<T>)
    requires Inv(s) && s.consumer.ValueMoved?
    ensures var n := s.consumer.next;
            OwnsValue(s, n) && Inv(s.(data := s.data[n := Dangling], consumer := ValueDeleted(s.consumer.tail, n)))
  {
    var n := s.consumer.next;
    assert n == s.chain[1] && s.data[n] == MovedFrom;
    ChainIsLive(s, 1);
    hide ChainOk, CallsOk, LinksOk, ValuesOk;
    var s' := s.(data := s.data[n := Dangling], consumer := ValueDeleted(s.consumer.tail, n));
    PayloadKeepsChain(s, s', Dangling);
    PayloadKeepsCalls(s, s', Dangling);
    PayloadKeepsLinks(s, s', Dangling);
    PayloadKeepsValues(s, s', Dangling);
  }

  lemma ClearPointerKeeps<T>(s: State<T>)
    requires Inv(s) && s.consumer.ValueDeleted?
    ensures var n := s.consumer.next;
            && Live(s, n) && !OwnsValue(s, n)
            && Inv(s.(data := s.data[n := Null], consumer := PointerCleared(s.consumer.tail, n)))
  {
    var n := s.consumer.next;
    assert n == s.chain[1] && s.data[n] == Dangling;
    ChainIsLive(s, 1);
    hide ChainOk, CallsOk, LinksOk, ValuesOk;
    var s' := s.(data := s.data[n := Null], consumer := PointerCleared(s.consumer.tail, n));
    PayloadKeepsChain(s, s', Null);
    PayloadKeepsCalls(s, s', Null);
    PayloadKeepsLinks(s, s', Null);
    PayloadKeepsValues(s, s', Null);
  }

  /** The consumer deletes the node its own link has already left behind. */
  lemma DeleteNodeKeeps<T>(s: State<T>)
    requires Inv(s) && s.consumer.TailStored?
    ensures var t := s.consumer.tail;
            Live(s, t) && !OwnsValue(s, t) && Inv(AfterDelete(s, t))
  {
    var s' := AfterDelete(s, s.consumer.tail);
    assert s.chain[0] == s.consumer.tail;
    DropChain(s, s');
    DropCalls(s, s');
    DropLinks(s, s');
    DropValues(s, s');
  }

  ghost predicate Drops<T>(s: State<T>, s': State<T>)
    requires ChainOk(s)
  {
    && |s.chain| > 1 && s'.chain == s.chain[1..] && s'.head == s.head && s'.calls == s.calls
    && s'.data == s.data - {s.chain[0]} && s'.next == s.next - {s.chain[0]}
  }

  lemma DropChain<T>(s: State<T>, s': State<T>)
    requires ChainOk(s) && Drops(s, s')
    ensures ChainOk(s')
  {
    assert forall i :: 0 <= i < |s'.chain| ==> s'.chain[i] == s.chain[i + 1];
    forall x | x != s.chain[0] && x in s.chain ensures x in s'.chain {
      var i :| 0 <= i < |s.chain| && s.chain[i] == x;
      assert s'.chain[i - 1] == x;
    }
  }

  lemma DropCalls<T>(s: State<T>, s': State<T>)
    requires ChainOk(s) && ChainOk(s') && CallsOk(s) && Drops(s, s') && s.chain[1] !in s.calls
    ensures CallsOk(s')
  {
    forall i | 0 < i < |s'.chain| && s'.chain[i] in s'.calls
      ensures s'.calls[s'.chain[i]] == Exchanged(s'.chain[i - 1])
    {
      assert s'.chain[i] == s.chain[i + 1] && s'.chain[i - 1] == s.chain[i];
    }
    forall x | x in s'.calls && s'.calls[x].Exchanged? ensures x in s'.chain {
      var i :| 0 <= i < |s.chain| && s.chain[i] == x;
      assert s'.chain[i - 1] == x;
    }
  }

  lemma DropLinks<T>(s: State<T>, s': State<T>)
    requires ChainOk(s) && ChainOk(s') && LinksOk(s) && Drops(s, s')
    ensures LinksOk(s')
  {
    forall i | 0 < i < |s'.chain|
      ensures s'.next[s'.chain[i - 1]] == if s'.chain[i] in s'.calls then None else Some(s'.chain[i])
    {
      assert s'.chain[i] == s.chain[i + 1] && s'.chain[i - 1] == s.chain[i];
    }
  }

  /** A node further on keeps its place, less one, and its payload. */
  lemma DropKeepsNode<T>(s: State<T>, s': State<T>, i: nat)
    requires ChainOk(s) && Drops(s, s') && i < |s.chain| - 1
    ensures s'.chain[i] == s.chain[i + 1] && s.chain[i + 1] != s.chain[0] && s.chain[i + 1] in s.data
    ensures s'.data[s'.chain[i]] == s.data[s.chain[i + 1]]
  {
  }

  lemma DropValues<T>(s: State<T>, s': State<T>)
    requires ChainOk(s) && ChainOk(s') && ValuesOk(s) && Drops(s, s')
    requires s.consumer.TailStored? && s'.consumer.Outside? && s'.log == s.log && s'.out == s.out &&
             s'.waiting == s.waiting
    ensures ValuesOk(s')
  {
    DropKeepsNode(s, s', 0);
    assert s.data[s.chain[1]] == Null;
    forall i | 1 <= i < |s'.chain| ensures s'.data[s'.chain[i]] == Holding(s'.waiting[i - 1]) {
      DropKeepsNode(s, s', i);
      assert s.data[s.chain[i + 1]] == Holding(s.waiting[i - 1]);
    }
    hide ChainOk;
  }

  // ---- what holds on every run ----

  /** No action touches freed memory, takes a payload twice, frees twice or leaks, and the invariant survives it. */
  lemma StepSafe<T>(s: State<T>, a: Action<T>)
    requires Inv(s)
    ensures !Do(s, a).Fault?
    ensures Do(s, a).Next? ==> Inv(Do(s, a).state)
  {
    hide Inv;
    match a
    case Build(n, value) => if n !in s.data && n !in s.next { BuildKeeps(s, n, value); }
    case Exchange(n) => if n in s.calls && s.calls[n].Built? { ExchangeKeeps(s, n); }
    case Link(n) => if n in s.calls && s.calls[n].Exchanged? { LinkKeeps(s, n); }
    case _ => ConsumerSafe(s, a);
  }

  lemma ConsumerSafe<T>(s: State<T>, a: Action<T>)
    requires Inv(s)
    ensures !Consume(s, a).Fault?
    ensures Consume(s, a).Next? ==> Inv(Consume(s, a).state)
  {
    hide Inv;
    match s.consumer
    case Outside => LoadTailKeeps(s);
    case HasTail(_) => LoadNextKeeps(s);
    case HasNext(_, _) => MoveKeeps(s); LeaveKeeps(s);
    case ValueMoved(_, _) => DeleteValueKeeps(s);
    case ValueDeleted(_, _) => ClearPointerKeeps(s);
    case PointerCleared(_, _) => StoreTailKeeps(s);
    case TailStored(_, _) => DeleteNodeKeeps(s);
  }

  lemma {:induction false} RunSafe<T>(s: State<T>, schedule: seq<Action<T>>)
    requires Inv(s)
    ensures !Run(s, schedule).Fault?
    ensures Run(s, schedule).Next? ==> Inv(Run(s, schedule).state)
    decreases |schedule|
  {
    if schedule != [] {
      StepSafe(s, schedule[0]);
      if Do(s, schedule[0]).Next? {
        hide Inv, Do;
        RunSafe(Do(s, schedule[0]).state, schedule[1..]);
      }
    }
  }

  // ---- what a schedule alone says of the values ----

  predicate IsProducers<T>(a: Action<T>) {
    a.Build? || a.Exchange? || a.Link?
  }

  /** The value that the latest `Build` of the node was given. */
  function ValueBuilt<T>(schedule: seq<Action<T>>, n: Address): Option<T>
    decreases |schedule|
  {
    if schedule == [] then None
    else
      var last := schedule[|schedule| - 1];
      if last.Build? && last.node == n then Some(last.value) else ValueBuilt(schedule[..|schedule| - 1], n)
  }

  /** The values put in, in the order of the exchanges: for each, the one its node was built with. */
  function Puts<T>(schedule: seq<Action<T>>): seq<T>
    decreases |schedule|
  {
    if schedule == [] then []
    else
      var init, last := schedule[..|schedule| - 1], schedule[|schedule| - 1];
      if last.Exchange? && ValueBuilt(init, last.node).Some? then Puts(init) + [ValueBuilt(init, last.node).value]
      else Puts(init)
  }

  lemma {:induction false} RunInTwo<T>(s: State<T>, a: seq<Action<T>>, x: Action<T>)
    ensures Run(s, a + [x]) == match Run(s, a)
                               case Next(s') => Do(s', x)
                               case stop => stop
    decreases |a|
  {
    hide Do;
    if a == [] {
      assert [] + [x] == [x] && [x][1..] == [];
      RunOne(s, x);
    } else {
      assert (a + [x])[1..] == a[1..] + [x];
      if Do(s, a[0]).Next? {
        RunInTwo(Do(s, a[0]).state, a[1..], x);
      }
    }
  }

  lemma RunOne<T>(s: State<T>, x: Action<T>)
    ensures Run(s, []) == Next(s) && Run(s, [x]) == Do(s, x)
  {
    assert [x][1..] == [];
    if Do(s, x).Next? {
      assert Run(Do(s, x).state, []) == Do(s, x);
    }
  }

  /** A call under way holds the value that its node was built with, and the log is what was put in. */
  ghost predicate Accounts<T>(s: State<T>, schedule: seq<Action<T>>) {
    && s.log == Puts(schedule)
    && forall n :: n in s.calls && s.calls[n].Built? ==> ValueBuilt(schedule, n) == Some(s.calls[n].value)
  }

  lemma StepAccounts<T>(s: State<T>, schedule: seq<Action<T>>, x: Action<T>)
    requires Accounts(s, schedule) && Do(s, x).Next?
    ensures Accounts(Do(s, x).state, schedule + [x])
  {
    hide Consume, AfterBuild, AfterExchange, AfterLink;
    assert (schedule + [x])[..|schedule|] == schedule;
    BuiltLater(schedule, x);
    if x.Build? || x.Exchange? || x.Link? {
      ProducerAccounts(s, schedule, x);
    } else {
      ConsumerLogsNothing(s, x);
    }
  }

  lemma BuiltLater<T>(schedule: seq<Action<T>>, x: Action<T>)
    ensures forall n :: ValueBuilt(schedule + [x], n) ==
                        if x.Build? && x.node == n then Some(x.value) else ValueBuilt(schedule, n)
  {
    assert (schedule + [x])[..|schedule|] == schedule;
  }

  lemma ProducerAccounts<T>(s: State<T>, schedule: seq<Action<T>>, x: Action<T>)
    requires Accounts(s, schedule) && Do(s, x).Next? && IsProducers(x)
    ensures Accounts(Do(s, x).state, schedule + [x])
  {
    hide Consume, ValueBuilt;
    assert (schedule + [x])[..|schedule|] == schedule;
    BuiltLater(schedule, x);
  }

  lemma ConsumerLogsNothing<T>(s: State<T>, x: Action<T>)
    requires Consume(s, x).Next?
    ensures Consume(s, x).state.log == s.log && Consume(s, x).state.calls == s.calls
  {
  }

  lemma {:induction false} RunAccounts<T>(dummy: Address, schedule: seq<Action<T>>)
    requires Run(Initial<T>(dummy), schedule).Next?
    ensures Accounts(Run(Initial<T>(dummy), schedule).state, schedule)
    decreases |schedule|
  {
    if schedule != [] {
      hide Run, Do, Accounts, Initial;
      var init, x := schedule[..|schedule| - 1], schedule[|schedule| - 1];
      assert schedule == init + [x];
      RunInTwo(Initial<T>(dummy), init, x);
      RunAccounts(dummy, init);
      StepAccounts(Run(Initial<T>(dummy), init).state, init, x);
    }
  }

  /**
   * In every interleaving: no memory fault, and what was dequeued is a prefix of what was put
   * in, in the order of the exchanges; both are read off the schedule.
   */
  lemma EveryRunIsFifo<T>(dummy: Address, schedule: seq<Action<T>>)
    ensures var e := Run(Initial<T>(dummy), schedule);
            !e.Fault? && (e.Next? ==> e.state.log == Puts(schedule) && e.state.out <= Puts(schedule))
  {
    hide Run, Initial, Puts, ValueBuilt;
    InitialOk<T>(dummy);
    RunSafe(Initial<T>(dummy), schedule);
    if Run(Initial<T>(dummy), schedule).Next? {
      RunAccounts(dummy, schedule);
      OutIsPrefix(Run(Initial<T>(dummy), schedule).state);
    }
  }

  lemma OutIsPrefix<T>(s: State<T>)
    requires Inv(s)
    ensures s.out <= s.log
  {
  }

  /** No producer still has to store a link into the node the consumer is about to delete. */
  lemma NoLinkPendingIntoDeletedNode<T>(s: State<T>, n: Address)
    requires Inv(s) && s.consumer.TailStored? && n in s.calls && s.calls[n].Exchanged?
    ensures s.calls[n].prevhead != s.consumer.tail
  {
    var i :| 0 <= i < |s.chain| && s.chain[i] == n;
    assert s.chain[i - 1] != s.chain[0];
  }

  /** The producer of the oldest value not yet handed over has still to store its link. */
  ghost predicate FirstIsUnlinked<T>(s: State<T>) {
    |s.out| < |s.log| && |s.chain| > 1 && s.chain[1] in s.calls
  }

  /**
   * `dequeue` (and `empty`, which is its first two steps) decides at the load of `next_`:
   * it answers false iff nothing is waiting or the first waiting enqueue is not linked.
   */
  lemma DequeueAnswer<T>(s: State<T>)
    requires Inv(s) && s.consumer.HasTail?
    ensures var e := Do(s, LoadNext);
            && e.Next?
            && (e.state.consumer.Outside? || e.state.consumer.HasNext?)
            && (e.state.consumer.Outside? <==> s.out == s.log || FirstIsUnlinked(s))
  {
    assert s.chain[0] == s.consumer.tail;
    if |s.chain| > 1 {
      assert s.next[s.chain[1 - 1]] == if s.chain[1] in s.calls then None else Some(s.chain[1]);
    }
    assert s.out == s.log <==> |s.chain| == 1;
  }

  /** The oldest value waiting can be taken. */
  ghost predicate Offers<T>(s: State<T>) {
    |s.out| < |s.log| && !FirstIsUnlinked(s)
  }

  lemma OfferStays<T>(s: State<T>, a: Action<T>)
    requires Inv(s) && Offers(s) && IsProducers(a) && Do(s, a).Next?
    ensures var e := Do(s, a).state; Offers(e) && e.out == s.out && e.consumer == s.consumer
  {
    assert |s.chain| > 1 && s.chain[1] !in s.calls && Live(s, s.chain[1]);
    if a.Exchange? {
      assert (s.chain + [a.node])[1] == s.chain[1];
    }
  }

  /** Once `empty` has answered false, nothing that producers do takes that back: `dequeue` will find a value. */
  lemma {:induction false} NotEmptyForGood<T>(s: State<T>, schedule: seq<Action<T>>)
    requires Inv(s) && Offers(s) && forall a :: a in schedule ==> IsProducers(a)
    ensures var e := Run(s, schedule);
            e.Next? ==> Inv(e.state) && Offers(e.state) && e.state.out == s.out && e.state.consumer == s.consumer
    decreases |schedule|
  {
    hide Inv, Do, Offers;
    if schedule != [] {
      StepSafe(s, schedule[0]);
      if Do(s, schedule[0]).Next? {
        assert schedule[0] in schedule;
        OfferStays(s, schedule[0]);
        NotEmptyForGood(Do(s, schedule[0]).state, schedule[1..]);
      }
    }
  }

  lemma SameFirst<T>(s: State<T>, s': State<T>)
    requires s'.out == s.out && s'.log == s.log && s'.chain == s.chain && s'.calls == s.calls
    ensures FirstIsUnlinked(s') == FirstIsUnlinked(s)
  {
  }

  /** The value `dequeue` then takes is the oldest one waiting. */
  lemma DequeueTakesOldest<T>(s: State<T>)
    requires Inv(s) && s.consumer.HasNext?
    ensures var e := Do(s, MoveValue);
            |s.out| < |s.log| && e.Next? && e.state.log == s.log && e.state.out == s.out + [s.log[|s.out|]]
  {
  }

  // ---- the destructor ----

  /** No call of `enqueue` or `dequeue` is under way. */
  ghost predicate Quiet<T>(s: State<T>) {
    s.calls == map[] && s.consumer.Outside?
  }

  lemma InvHasChain<T>(s: State<T>)
    requires Inv(s)
    ensures s.chain != []
  {
    NotEmpty(s);
  }

  /** The order of the consumer's actions, and what each of them leaves alone. */
  lemma DequeueStep<T>(s: State<T>, a: Action<T>)
    requires Inv(s)
    requires match s.consumer
             case Outside => a.LoadTail?
             case HasTail(_) => a.LoadNext?
             case HasNext(_, _) => a.MoveValue? || a.Leave?
             case ValueMoved(_, _) => a.DeleteValue?
             case ValueDeleted(_, _) => a.ClearPointer?
             case PointerCleared(_, _) => a.StoreTail?
             case TailStored(_, _) => a.DeleteNode?
    ensures var e := Do(s, a);
            && e.Next? && Inv(e.state)
            && e.state.calls == s.calls && e.state.log == s.log &&
               e.state.chain == (if a.DeleteNode? then s.chain[1..] else s.chain)
            && (a.MoveValue? || e.state.out == s.out)
            && (a.LoadTail? || a.LoadNext? || a.Leave? ==> e.state == s.(consumer := e.state.consumer))
            && match a
               case LoadTail => e.state.consumer.HasTail?
               case LoadNext => e.state.consumer.Outside? || e.state.consumer.HasNext?
               case MoveValue => e.state.consumer.ValueMoved?
               case DeleteValue => e.state.consumer.ValueDeleted?
               case ClearPointer => e.state.consumer.PointerCleared?
               case StoreTail => e.state.consumer.TailStored?
               case _ => e.state.consumer.Outside?
  {
    hide Inv;
    InvHasChain(s);
    ConsumerSafe(s, a);
  }

  /** One `empty` that no other thread's action interrupts. */
  method EmptyUndisturbed<T>(start: State<T>) returns (empty: bool, s: State<T>)
    requires Inv(start) && start.consumer.Outside?
    ensures s == start
    ensures empty <==> !Offers(start)
  {
    hide Inv, Do, FirstIsUnlinked;
    DequeueStep(start, LoadTail);
    s := Do(start, LoadTail).state;
    SameFirst(start, s);
    DequeueStep(s, LoadNext);
    DequeueAnswer(s);
    OutWithinLog(start);
    s := Do(s, LoadNext).state;
    if s.consumer.Outside? {
      return true, s;
    }
    DequeueStep(s, Leave);
    s := Do(s, Leave).state;
    return false, s;
  }

  lemma OutWithinLog<T>(s: State<T>)
    requires Inv(s)
    ensures s.out != s.log <==> |s.out| < |s.log|
  {
  }

  /** One `dequeue` that no other thread's action interrupts. */
  method DequeueUndisturbed<T>(start: State<T>) returns (taken: bool, s: State<T>)
    requires Inv(start) && start.consumer.Outside?
    ensures Inv(s) && s.consumer.Outside? && s.calls == start.calls && s.log == start.log
    ensures taken <==> start.out != start.log && !FirstIsUnlinked(start)
    ensures taken ==> |start.out| < |start.log| && s.out == start.out + [start.log[|start.out|]]
    ensures !taken ==> s == start
  {
    hide Inv, Do, FirstIsUnlinked;
    DequeueStep(start, LoadTail);
    s := Do(start, LoadTail).state;
    SameFirst(start, s);
    DequeueStep(s, LoadNext);
    DequeueAnswer(s);
    s := Do(s, LoadNext).state;
    if s.consumer.Outside? {
      return false, s;
    }
    DequeueTakesOldest(s);
    DequeueStep(s, MoveValue);
    s := Do(s, MoveValue).state;
    DequeueStep(s, DeleteValue);
    s := Do(s, DeleteValue).state;
    DequeueStep(s, ClearPointer);
    s := Do(s, ClearPointer).state;
    DequeueStep(s, StoreTail);
    s := Do(s, StoreTail).state;
    DequeueStep(s, DeleteNode);
    s := Do(s, DeleteNode).state;
    return true, s;
  }

  /**
   * `~lock_free_queue`: dequeue until that answers false, then delete the node `head_`
   * points to. With no call under way, every value comes out, in order, and all memory is freed.
   */
  method Destroy<T>(start: State<T>) returns (ghost last: State<T>, s: State<T>)
    requires Inv(start) && Quiet(start)
    ensures Inv(last) && Live(last, last.head) && !OwnsValue(last, last.head)
    ensures last.data.Keys == {last.head} && last.next.Keys == {last.head}
    ensures s == last.(data := last.data - {last.head}, next := last.next - {last.head})
    ensures s.data == map[] && s.next == map[]
    ensures s.out == start.log
  {
    s := start;
    var more := true;
    while more
      invariant Inv(s) && Quiet(s) && s.log == start.log
      invariant !more ==> s.out == s.log
      decreases more, |s.log| - |s.out|
    {
      more, s := DequeueUndisturbed(s);
    }
    last := s;
    var front := s.head;
    OneNodeRemains(s);
    s := s.(data := s.data - {front}, next := s.next - {front});
  }

  /** A quiet queue with nothing waiting consists of one live node, whose payload is already gone. */
  lemma OneNodeRemains<T>(s: State<T>)
    requires Inv(s) && Quiet(s) && s.out == s.log
    ensures Live(s, s.head) && !OwnsValue(s, s.head)
    ensures s.data.Keys == {s.head} && s.next.Keys == {s.head}
  {
    assert s.chain == [s.head];
    assert forall x :: x in s.data || x in s.next ==> x in s.chain;
  }
}
