/**
 The commands of `kvs_parser_protocol` over the abstract states of the five engines, and what
 whole command traces say when the engines are compared with each other.
 */
module Protocol {
  import opened Bindings
  import opened Strings
  import HashTable

  datatype Op = Set | Get | Count | Delete | Exist

  datatype Engine = ArrayEngine | RbEngine | HashEngine | DHashEngine | SkipEngine

  datatype Request = Request(op: Op, key: CharPtr, value: CharPtr)

  datatype Command = Command(engine: Engine, request: Request)

  /** What is printed into the message: a result word, a value, or a number. */
  datatype Reply = Success | Failed | NoExist | Value(v: CString) | Number(n: int)

  const ARRAY_LIMIT := 1023

  /**
   The abstract states: maps, stacks of values for dhash, the skip list's extra counts, and
   whether the hash engine's mutex has been left taken.
   */
  datatype Stores = Stores(
    arr: map<CString, CString>,
    rb: map<CString, CString>,
    hash: map<CString, CString>,
    hashLocked: bool,
    dhash: Stacks,
    skip: map<CString, CString>,
    overwrites: nat)

  const EMPTY := Stores(map[], map[], map[], false, map[], map[], 0)

  function Result(code: int): Reply {
    if code == 0 then Success else Failed
  }

  function Found(value: CharPtr): Reply {
    if value.Ptr? then Value(value.s) else NoExist
  }

  // ---------- return values of the engines' five operations ----------

  function SetResult(s: Stores, e: Engine, k: CharPtr, v: CharPtr): int {
    if k.Null? || v.Null? then -1
    else match e
      case ArrayEngine => if |s.arr| == ARRAY_LIMIT || k.s in s.arr then -1 else 0
      case RbEngine => if k.s in s.rb then 1 else 0
      case HashEngine => if k.s in s.hash then 1 else 0
      case DHashEngine => 0
      case SkipEngine => 0
  }

  function Lookup(m: map<CString, CString>, k: CharPtr): CharPtr {
    if k.Ptr? && k.s in m then Ptr(m[k.s]) else Null
  }

  /** An absent key of the red-black tree reads the sentinel's empty value. */
  function GetResult(s: Stores, e: Engine, k: CharPtr): CharPtr {
    match e
    case ArrayEngine => Lookup(s.arr, k)
    case RbEngine => if k.Null? then Null else Ptr(if k.s in s.rb then s.rb[k.s] else [])
    case HashEngine => Lookup(s.hash, k)
    case DHashEngine => if k.Ptr? && k.s in s.dhash && s.dhash[k.s] != [] then Ptr(s.dhash[k.s][0]) else Null
    case SkipEngine => Lookup(s.skip, k)
  }

  ghost function CountResult(s: Stores, e: Engine): int {
    match e
    case ArrayEngine => |s.arr|
    case RbEngine => |s.rb|
    case HashEngine => |s.hash|
    case DHashEngine => Total(s.dhash)
    case SkipEngine => |s.skip| + s.overwrites
  }

  predicate Has(s: Stores, e: Engine, k: CString) {
    match e
    case ArrayEngine => k in s.arr
    case RbEngine => k in s.rb
    case HashEngine => k in s.hash
    case DHashEngine => k in s.dhash
    case SkipEngine => k in s.skip
  }

  function DeleteResult(s: Stores, e: Engine, k: CharPtr): int {
    if k.Null? then (if e.HashEngine? then -2 else -1)
    else if Has(s, e, k.s) then 0
    else if e.RbEngine? then 1 else -1
  }

  function ExistResult(s: Stores, e: Engine, k: CharPtr): int {
    if k.Null? then (if e.RbEngine? then -1 else 0)
    else if Has(s, e, k.s) then 1 else 0
  }

  // ---------- new states ----------

  function AfterSet(s: Stores, e: Engine, k: CString, v: CString): Stores {
    match e
    case ArrayEngine => s.(arr := s.arr[k := v])
    case RbEngine => s.(rb := s.rb[k := v])
    case HashEngine => s.(hash := s.hash[k := v])
    case DHashEngine => s.(dhash := Push(s.dhash, k, v))
    case SkipEngine => s.(skip := s.skip[k := v], overwrites := s.overwrites + if k in s.skip then 1 else 0)
  }

  function AfterDelete(s: Stores, e: Engine, k: CString): Stores {
    match e
    case ArrayEngine => s.(arr := s.arr - {k})
    case RbEngine => s.(rb := s.rb - {k})
    case HashEngine => s.(hash := s.hash - {k})
    case DHashEngine => if k in s.dhash then s.(dhash := Pop(s.dhash, k)) else s
    case SkipEngine => s.(skip := s.skip - {k})
  }

  /** Hash delete returns from an empty bucket with the mutex taken. */
  function AfterFailedDelete(s: Stores, e: Engine, k: CharPtr): Stores {
    if e.HashEngine? && k.Ptr? && HashTable.Vacant(s.hash, k.s) then s.(hashLocked := true) else s
  }

  function Next(s: Stores, c: Command): Stores {
    var r := c.request;
    match r.op
    case Set => if SetResult(s, c.engine, r.key, r.value) == 0 then AfterSet(s, c.engine, r.key.s, r.value.s) else s
    case Delete =>
      if DeleteResult(s, c.engine, r.key) == 0 then AfterDelete(s, c.engine, r.key.s)
      else AfterFailedDelete(s, c.engine, r.key)
    case _ => s
  }

  /** The commands that take the hash engine's mutex. */
  predicate Locks(c: Command) {
    && c.engine.HashEngine?
    && !c.request.op.Count? && c.request.key.Ptr? && (c.request.op.Set? ==> c.request.value.Ptr?)
  }

  /** The command never returns, and with it the only thread of the server. */
  predicate Blocks(s: Stores, c: Command) {
    s.hashLocked && Locks(c)
  }

  ghost function Answer(s: Stores, c: Command): Reply {
    var e, r := c.engine, c.request;
    match r.op
    case Set => Result(SetResult(s, e, r.key, r.value))
    case Get => Found(GetResult(s, e, r.key))
    case Count => Number(CountResult(s, e))
    case Delete => Result(DeleteResult(s, e, r.key))
    case Exist => Number(ExistResult(s, e, r.key))
  }

  /** Which commands wait for the hash engine's mutex: all of its own but a count and those with a null argument. */
  lemma BlockTable(s: Stores, e: Engine, r: Request)
    ensures !s.hashLocked || !e.HashEngine? ==> !Blocks(s, Command(e, r))
    ensures s.hashLocked && e.HashEngine? ==> (Blocks(s, Command(e, r)) <==>
      match r.op
      case Set => r.key.Ptr? && r.value.Ptr?
      case Count => false
      case _ => r.key.Ptr?)
  {
  }

  // ---------- the replies and new bindings, spelled out ----------

  /** The value of each key as engine `e` reads it. */
  function Bound(e: Engine, s: Stores): map<CString, CString> {
    match e
    case ArrayEngine => s.arr
    case RbEngine => s.rb
    case HashEngine => s.hash
    case DHashEngine => Tops(s.dhash)
    case SkipEngine => s.skip
  }

  /** No key of dhash has an empty stack. */
  predicate Stacked(s: Stores) {
    forall k :: k in s.dhash ==> s.dhash[k] != []
  }

  /** The code tests the arguments it is given, or they are there. */
  predicate Answerable(e: Engine, r: Request) {
    match e
    case DHashEngine => Proper(r)
    case SkipEngine => r.op.Delete? || r.op.Exist? ==> r.key.Ptr?
    case _ => true
  }

  /** The reply of every engine to every request, in any state. */
  lemma ReplyTable(e: Engine, s: Stores, r: Request)
    requires Answerable(e, r) && Stacked(s)
    ensures var m, reply, k := Bound(e, s), Answer(s, Command(e, r)), r.key;
      match r.op
      case Set => reply ==
        if k.Null? || r.value.Null? then Failed
        else if e.ArrayEngine? && |m| == 1023 then Failed
        else if k.s in m && !e.DHashEngine? && !e.SkipEngine? then Failed
        else Success
      case Get => reply ==
        if k.Null? then NoExist
        else if k.s in m then Value(m[k.s])
        else if e.RbEngine? then Value([])
        else NoExist
      case Count => reply == Number(
        if e.DHashEngine? then Total(s.dhash) else if e.SkipEngine? then |m| + s.overwrites else |m|)
      case Delete => reply == if k.Ptr? && k.s in m then Success else Failed
      case Exist => reply == Number(
        if k.Null? then (if e.RbEngine? then -1 else 0) else if k.s in m then 1 else 0)
  {
    hide Total;
  }

  /** The bindings of every engine after every request, in any state. */
  lemma StateTable(e: Engine, s: Stores, r: Request)
    requires Stacked(s)
    ensures Stacked(Next(s, Command(e, r)))
    ensures var m, m', k := Bound(e, s), Bound(e, Next(s, Command(e, r))), r.key;
      match r.op
      case Set => m' ==
        if k.Null? || r.value.Null? || (e.ArrayEngine? && |m| == 1023) then m
        else if k.s in m && !e.DHashEngine? && !e.SkipEngine? then m
        else m[k.s := r.value.s]
      case Delete => m' ==
        if k.Null? then m
        else if e.DHashEngine? && k.s in s.dhash && |s.dhash[k.s]| > 1 then m[k.s := s.dhash[k.s][1]]
        else m - {k.s}
      case _ => m' == m
    ensures Next(s, Command(e, r)).overwrites == s.overwrites +
      if e.SkipEngine? && r.op.Set? && r.key.Ptr? && r.value.Ptr? && r.key.s in s.skip then 1 else 0
  {
    hide HashTable.Vacant;
    if r.op.Set? {
      SetTable(e, s, r.key, r.value);
    } else if r.op.Delete? {
      DeleteTable(e, s, r.key);
    }
  }

  lemma SetTable(e: Engine, s: Stores, k: CharPtr, v: CharPtr)
    requires Stacked(s)
    ensures SetResult(s, e, k, v) == 0 <==>
      k.Ptr? && v.Ptr? && !(e.ArrayEngine? && |Bound(e, s)| == 1023) && (k.s in Bound(e, s) ==> e.DHashEngine? || e.SkipEngine?)
    ensures SetResult(s, e, k, v) == 0 ==>
      var t := AfterSet(s, e, k.s, v.s);
      && Stacked(t) && Bound(e, t) == Bound(e, s)[k.s := v.s]
      && t.overwrites == s.overwrites + if e.SkipEngine? && k.s in s.skip then 1 else 0
  {
  }

  lemma DeleteTable(e: Engine, s: Stores, k: CharPtr)
    requires Stacked(s)
    ensures DeleteResult(s, e, k) == 0 <==> k.Ptr? && k.s in Bound(e, s)
    ensures DeleteResult(s, e, k) == 0 ==>
      var t := AfterDelete(s, e, k.s);
      && Stacked(t) && t.overwrites == s.overwrites
      && Bound(e, t) ==
           if e.DHashEngine? && |s.dhash[k.s]| > 1 then Bound(e, s)[k.s := s.dhash[k.s][1]] else Bound(e, s) - {k.s}
    ensures k.Ptr? && k.s !in Bound(e, s) ==> Bound(e, s) - {k.s} == Bound(e, s)
    ensures AfterFailedDelete(s, e, k) == s.(hashLocked := AfterFailedDelete(s, e, k).hashLocked)
  {
  }

  // ---------- each command touches only its own engine ----------

  ghost predicate SameFor(e: Engine, a: Stores, b: Stores) {
    match e
    case ArrayEngine => a.arr == b.arr
    case RbEngine => a.rb == b.rb
    case HashEngine => a.hash == b.hash && a.hashLocked == b.hashLocked
    case DHashEngine => a.dhash == b.dhash
    case SkipEngine => a.skip == b.skip && a.overwrites == b.overwrites
  }

  lemma {:induction false} OtherEnginesKept(s: Stores, c: Command, e: Engine)
    requires e != c.engine
    ensures SameFor(e, s, Next(s, c))
  {
    hide Push, Pop, AfterSet, AfterDelete, Has, HashTable.Vacant;
    var r := c.request;
    if r.op.Set? && SetResult(s, c.engine, r.key, r.value) == 0 {
      SetTouchesOne(s, c.engine, r.key.s, r.value.s, e);
    } else if r.op.Delete? && DeleteResult(s, c.engine, r.key) == 0 {
      DeleteTouchesOne(s, c.engine, r.key.s, e);
    }
  }

  lemma SameForTransitive(e: Engine, a: Stores, b: Stores, c: Stores)
    requires SameFor(e, b, a) && SameFor(e, b, c)
    ensures SameFor(e, a, c)
  {
  }

  lemma SetTouchesOne(s: Stores, at: Engine, k: CString, v: CString, e: Engine)
    requires e != at
    ensures SameFor(e, s, AfterSet(s, at, k, v))
  {
    hide Push;
  }

  lemma DeleteTouchesOne(s: Stores, at: Engine, k: CString, e: Engine)
    requires e != at
    ensures SameFor(e, s, AfterDelete(s, at, k))
  {
    hide Pop;
  }

  lemma DependsOnOwnEngine(a: Stores, b: Stores, c: Command)
    requires SameFor(c.engine, a, b)
    ensures SameFor(c.engine, Next(a, c), Next(b, c)) && Answer(a, c) == Answer(b, c)
  {
    hide SameFor, AfterSet, AfterDelete, AfterFailedDelete, SetResult, GetResult, CountResult, DeleteResult, ExistResult;
    var e, r := c.engine, c.request;
    SameSet(a, b, e, r.key, r.value);
    SameDelete(a, b, e, r.key);
    SameReads(a, b, e, r.key);
  }

  lemma SameReads(a: Stores, b: Stores, e: Engine, k: CharPtr)
    requires SameFor(e, a, b)
    ensures GetResult(a, e, k) == GetResult(b, e, k) && ExistResult(a, e, k) == ExistResult(b, e, k)
    ensures CountResult(a, e) == CountResult(b, e)
  {
    hide Total;
  }

  lemma SameSet(a: Stores, b: Stores, e: Engine, k: CharPtr, v: CharPtr)
    requires SameFor(e, a, b)
    ensures SetResult(a, e, k, v) == SetResult(b, e, k, v)
    ensures SetResult(a, e, k, v) == 0 ==> k.Ptr? && v.Ptr? && SameFor(e, AfterSet(a, e, k.s, v.s), AfterSet(b, e, k.s, v.s))
  {
    hide Push;
  }

  lemma SameDelete(a: Stores, b: Stores, e: Engine, k: CharPtr)
    requires SameFor(e, a, b)
    ensures DeleteResult(a, e, k) == DeleteResult(b, e, k)
    ensures DeleteResult(a, e, k) == 0 ==> k.Ptr? && SameFor(e, AfterDelete(a, e, k.s), AfterDelete(b, e, k.s))
    ensures SameFor(e, AfterFailedDelete(a, e, k), AfterFailedDelete(b, e, k))
  {
    hide Pop, HashTable.Vacant;
  }

  /** A trace ends early at a command that never returns. */
  ghost function Run(s: Stores, cs: seq<Command>): Stores
    decreases |cs|
  {
    if cs == [] || Blocks(s, cs[0]) then s else Run(Next(s, cs[0]), cs[1..])
  }

  ghost predicate NeverBlocks(s: Stores, cs: seq<Command>)
    decreases |cs|
  {
    cs == [] || (!Blocks(s, cs[0]) && NeverBlocks(Next(s, cs[0]), cs[1..]))
  }

  /** All replies along the trace. */
  ghost function Answers(s: Stores, cs: seq<Command>): seq<Reply>
    decreases |cs|
  {
    if cs == [] || Blocks(s, cs[0]) then [] else [Answer(s, cs[0])] + Answers(Next(s, cs[0]), cs[1..])
  }

  /** The replies that engine `e` gives along the trace. */
  ghost function Replies(s: Stores, e: Engine, cs: seq<Command>): seq<Reply>
    decreases |cs|
  {
    if cs == [] || Blocks(s, cs[0]) then []
    else (if cs[0].engine == e then [Answer(s, cs[0])] else []) + Replies(Next(s, cs[0]), e, cs[1..])
  }

  /** Of the replies to the commands of a trace, in order, those to commands for engine `e`. */
  function Selected(e: Engine, cs: seq<Command>, replies: seq<Reply>): seq<Reply> {
    if cs == [] || replies == [] then []
    else (if cs[0].engine == e then [replies[0]] else []) + Selected(e, cs[1..], replies[1..])
  }

  lemma {:induction false} RepliesAreAnswers(s: Stores, e: Engine, cs: seq<Command>)
    ensures Replies(s, e, cs) == Selected(e, cs, Answers(s, cs))
    decreases |cs|
  {
    if cs != [] && !Blocks(s, cs[0]) {
      RepliesAreAnswers(Next(s, cs[0]), e, cs[1..]);
      assert Answers(s, cs)[1..] == Answers(Next(s, cs[0]), cs[1..]);
    }
  }

  /** The requests the trace makes of engine `e`. */
  function Requests(e: Engine, cs: seq<Command>): seq<Request> {
    if cs == [] then []
    else (if cs[0].engine == e then [cs[0].request] else []) + Requests(e, cs[1..])
  }

  /** The replies of engine `e` to requests made of it alone, none of which blocks. */
  ghost function Alone(s: Stores, e: Engine, rs: seq<Request>): seq<Reply>
    decreases |rs|
  {
    if rs == [] then []
    else [Answer(s, Command(e, rs[0]))] + Alone(Next(s, Command(e, rs[0])), e, rs[1..])
  }

  /** Whatever is asked of the others in between, as long as nothing blocks an engine answers as if alone. */
  lemma {:induction false} Isolation(a: Stores, b: Stores, e: Engine, cs: seq<Command>)
    requires SameFor(e, a, b) && NeverBlocks(a, cs)
    ensures Replies(a, e, cs) == Alone(b, e, Requests(e, cs))
    decreases |cs|
  {
    hide Next, Answer, SameFor;
    if cs != [] {
      var c := cs[0];
      if c.engine == e {
        DependsOnOwnEngine(a, b, c);
        Isolation(Next(a, c), Next(b, c), e, cs[1..]);
        assert Requests(e, cs)[1..] == Requests(e, cs[1..]);
        assert Command(e, Requests(e, cs)[0]) == c;
      } else {
        OtherEnginesKept(a, c, e);
        SameForTransitive(e, Next(a, c), a, b);
        Isolation(Next(a, c), b, e, cs[1..]);
        assert Requests(e, cs) == Requests(e, cs[1..]);
      }
    }
  }

  // ---------- when the engines agree ----------

  /** Engine `e` holds the bindings of `m`, one value to each key, no overwrite counted. */
  ghost predicate Holds(e: Engine, s: Stores, m: map<CString, CString>) {
    match e
    case ArrayEngine => s.arr == m
    case RbEngine => s.rb == m
    case HashEngine => s.hash == m
    case DHashEngine => Shallow(s.dhash) && Tops(s.dhash) == m
    case SkipEngine => s.skip == m && s.overwrites == 0
  }

  /** The arguments the operation needs are there. */
  predicate Proper(r: Request) {
    (!r.op.Count? ==> r.key.Ptr?) && (r.op.Set? ==> r.value.Ptr?)
  }

  /** SET names an absent key and finds room; GET names a present key. */
  predicate Allowed(m: map<CString, CString>, r: Request)
    requires Proper(r)
  {
    match r.op
    case Set => r.key.s !in m && |m| < ARRAY_LIMIT
    case Get => r.key.s in m
    case _ => true
  }

  function NextMap(m: map<CString, CString>, r: Request): map<CString, CString>
    requires Proper(r)
  {
    match r.op
    case Set => m[r.key.s := r.value.s]
    case Delete => m - {r.key.s}
    case _ => m
  }

  /** What a plain map answers to an allowed request. */
  function MapAnswer(m: map<CString, CString>, r: Request): Reply
    requires Proper(r) && Allowed(m, r)
  {
    match r.op
    case Set => Success
    case Get => Value(m[r.key.s])
    case Count => Number(|m|)
    case Delete => if r.key.s in m then Success else Failed
    case Exist => Number(if r.key.s in m then 1 else 0)
  }

  /** To an allowed request every engine answers as a map would. */
  lemma AnswersLikeMap(e: Engine, s: Stores, m: map<CString, CString>, r: Request)
    requires Holds(e, s, m) && |m| <= ARRAY_LIMIT && Proper(r) && Allowed(m, r)
    ensures Answer(s, Command(e, r)) == MapAnswer(m, r)
  {
    if e.DHashEngine? {
      TotalShallow(s.dhash);
    }
  }

  /** Any other request tells two engines apart. */
  lemma Disagreement(st: Engine -> Stores, m: map<CString, CString>, r: Request) returns (e: Engine)
    requires (forall e :: Holds(e, st(e), m)) && |m| <= ARRAY_LIMIT && Proper(r) && !Allowed(m, r)
    ensures Answer(st(e), Command(e, r)) != Answer(st(ArrayEngine), Command(ArrayEngine, r))
  {
    e := if r.op.Get? then RbEngine else SkipEngine;
    assert Holds(ArrayEngine, st(ArrayEngine), m) && Holds(e, st(e), m);
  }

  lemma ShallowPush(d: Stacks, k: CString, v: CString)
    requires Shallow(d) && k !in d
    ensures Shallow(Push(d, k, v)) && Tops(Push(d, k, v)) == Tops(d)[k := v]
  {
  }

  lemma ShallowPop(d: Stacks, k: CString)
    requires Shallow(d) && k in d
    ensures Shallow(Pop(d, k)) && Tops(Pop(d, k)) == Tops(d) - {k}
  {
  }

  lemma StaysHolding(e: Engine, s: Stores, m: map<CString, CString>, r: Request)
    requires Holds(e, s, m) && Proper(r) && Allowed(m, r)
    ensures Holds(e, Next(s, Command(e, r)), NextMap(m, r))
  {
    hide Push, Pop, Shallow, Tops, HashTable.Vacant;
    if r.op.Set? {
      HoldsAfterSet(e, s, m, r.key.s, r.value.s);
    } else if r.op.Delete? {
      HoldsAfterDelete(e, s, m, r.key.s);
    }
  }

  lemma HoldsAfterSet(e: Engine, s: Stores, m: map<CString, CString>, k: CString, v: CString)
    requires Holds(e, s, m) && k !in m && |m| < ARRAY_LIMIT
    ensures SetResult(s, e, Ptr(k), Ptr(v)) == 0 && Holds(e, AfterSet(s, e, k, v), m[k := v])
  {
    if e.DHashEngine? { ShallowPush(s.dhash, k, v); }
  }

  lemma HoldsAfterDelete(e: Engine, s: Stores, m: map<CString, CString>, k: CString)
    requires Holds(e, s, m)
    ensures DeleteResult(s, e, Ptr(k)) == 0 <==> k in m
    ensures Holds(e, if k in m then AfterDelete(s, e, k) else AfterFailedDelete(s, e, Ptr(k)), m - {k})
  {
    if k !in m {
      assert m - {k} == m;
    } else if e.DHashEngine? {
      ShallowPop(s.dhash, k);
    }
  }

  lemma MapStaysSmall(m: map<CString, CString>, r: Request)
    requires Proper(r) && Allowed(m, r) && |m| <= ARRAY_LIMIT
    ensures |NextMap(m, r)| <= ARRAY_LIMIT
  {
    if r.op.Delete? {
      FewerKeys(m, r.key.s);
    } else if r.op.Set? {
      OneMoreKey(m, r.key.s, r.value.s);
    }
  }

  lemma FewerKeys(m: map<CString, CString>, k: CString)
    ensures |m - {k}| <= |m|
  {
    if k in m {
      assert m.Keys == (m - {k}).Keys + {k};
    } else {
      assert m - {k} == m;
    }
  }

  lemma OneMoreKey(m: map<CString, CString>, k: CString, v: CString)
    ensures |m[k := v]| <= |m| + 1
  {
    assert m[k := v].Keys == m.Keys + {k};
  }

  // ---------- whole runs ----------

  ghost predicate AllAllowed(m: map<CString, CString>, rs: seq<Request>)
    requires forall i :: 0 <= i < |rs| ==> Proper(rs[i])
    decreases |rs|
  {
    rs == [] || (Allowed(m, rs[0]) && AllAllowed(NextMap(m, rs[0]), rs[1..]))
  }

  /** The replies of a plain map. */
  ghost function MapReplies(m: map<CString, CString>, rs: seq<Request>): seq<Reply>
    requires forall i :: 0 <= i < |rs| ==> Proper(rs[i])
    requires AllAllowed(m, rs)
    decreases |rs|
  {
    if rs == [] then [] else [MapAnswer(m, rs[0])] + MapReplies(NextMap(m, rs[0]), rs[1..])
  }

  /** Each engine refines the map on every allowed run. */
  lemma {:induction false} RefinesMap(e: Engine, s: Stores, m: map<CString, CString>, rs: seq<Request>)
    requires forall i :: 0 <= i < |rs| ==> Proper(rs[i])
    requires Holds(e, s, m) && |m| <= ARRAY_LIMIT && AllAllowed(m, rs)
    ensures Alone(s, e, rs) == MapReplies(m, rs)
    decreases |rs|
  {
    hide Next, Answer, Holds;
    if rs != [] {
      AnswersLikeMap(e, s, m, rs[0]);
      StaysHolding(e, s, m, rs[0]);
      MapStaysSmall(m, rs[0]);
      RefinesMap(e, Next(s, Command(e, rs[0])), NextMap(m, rs[0]), rs[1..]);
    }
  }

  /** On any other run, some engine's replies differ from the array's. */
  lemma {:induction false} TellsApart(st: Engine -> Stores, m: map<CString, CString>, rs: seq<Request>) returns (e: Engine)
    requires forall i :: 0 <= i < |rs| ==> Proper(rs[i])
    requires (forall e :: Holds(e, st(e), m)) && |m| <= ARRAY_LIMIT && !AllAllowed(m, rs)
    ensures Alone(st(e), e, rs) != Alone(st(ArrayEngine), ArrayEngine, rs)
    decreases |rs|
  {
    hide Next, Answer, Holds;
    var r := rs[0];
    if Allowed(m, r) {
      var st' := e => Next(st(e), Command(e, r));
      forall e ensures Holds(e, st'(e), NextMap(m, r)) { StaysHolding(e, st(e), m, r); }
      MapStaysSmall(m, r);
      e := TellsApart(st', NextMap(m, r), rs[1..]);
      assert Alone(st(e), e, rs)[1..] == Alone(st'(e), e, rs[1..]);
      assert Alone(st(ArrayEngine), ArrayEngine, rs)[1..] == Alone(st'(ArrayEngine), ArrayEngine, rs[1..]);
    } else {
      e := Disagreement(st, m, r);
      assert Alone(st(e), e, rs)[0] != Alone(st(ArrayEngine), ArrayEngine, rs)[0];
    }
  }

  // ---------- traces in which nothing blocks ----------

  function HashMapAfter(m: map<CString, CString>, r: Request): map<CString, CString> {
    match r.op
    case Set => if r.key.Ptr? && r.value.Ptr? && r.key.s !in m then m[r.key.s := r.value.s] else m
    case Delete => if r.key.Ptr? then m - {r.key.s} else m
    case _ => m
  }

  /** A delete that meets an empty bucket. */
  predicate LeavesLocked(m: map<CString, CString>, r: Request) {
    r.op.Delete? && r.key.Ptr? && HashTable.Vacant(m, r.key.s)
  }

  /** None of the requests takes the hash engine's mutex. */
  ghost predicate NoneLocks(rs: seq<Request>) {
    forall i :: 0 <= i < |rs| ==> !Locks(Command(HashEngine, rs[i]))
  }

  lemma NoneLocksStep(r: Request, rest: seq<Request>)
    ensures NoneLocks([r] + rest) <==> !Locks(Command(HashEngine, r)) && NoneLocks(rest)
  {
    hide Locks;
    var rs := [r] + rest;
    assert rs[0] == r;
    if NoneLocks(rs) {
      forall i | 0 <= i < |rest| ensures !Locks(Command(HashEngine, rest[i])) {
        assert rs[i + 1] == rest[i];
      }
    }
  }

  /** Each request to the hash engine that meets an empty bucket in a delete is the last that locks. */
  ghost predicate LockedOnlyAtEnd(m: map<CString, CString>, rs: seq<Request>)
    decreases |rs|
  {
    rs == [] ||
    if LeavesLocked(m, rs[0]) then NoneLocks(rs[1..])
    else LockedOnlyAtEnd(HashMapAfter(m, rs[0]), rs[1..])
  }

  lemma HashNext(s: Stores, r: Request)
    requires !s.hashLocked
    ensures var t := Next(s, Command(HashEngine, r));
      t.hashLocked == LeavesLocked(s.hash, r) && t.hash == HashMapAfter(s.hash, r)
  {
    if r.op.Delete? && r.key.Ptr? && r.key.s !in s.hash {
      assert s.hash - {r.key.s} == s.hash;
    }
  }

  lemma {:induction false} LockedBlocks(s: Stores, cs: seq<Command>)
    requires s.hashLocked
    ensures NeverBlocks(s, cs) <==> NoneLocks(Requests(HashEngine, cs))
    decreases |cs|
  {
    if cs != [] {
      hide Next, Locks, NoneLocks, Requests;
      var c, rest := cs[0], Requests(HashEngine, cs[1..]);
      LockKept(s, c);
      LockedBlocks(Next(s, c), cs[1..]);
      FirstRequest(cs);
      if c.engine == HashEngine {
        NoneLocksStep(c.request, rest);
      } else {
        OnlyHashLocks(c);
      }
    }
  }

  lemma OnlyHashLocks(c: Command)
    requires c.engine != HashEngine
    ensures !Locks(c)
  {
  }

  lemma FirstRequest(cs: seq<Command>)
    requires cs != []
    ensures var rs, rest := Requests(HashEngine, cs), Requests(HashEngine, cs[1..]);
      if cs[0].engine == HashEngine
      then rs == [cs[0].request] + rest && rs[1..] == rest && Command(HashEngine, cs[0].request) == cs[0]
      else rs == rest
  {
    assert [] + Requests(HashEngine, cs[1..]) == Requests(HashEngine, cs[1..]);
  }

  /** Only a failed hash delete changes the lock bit, and it sets it. */
  lemma LockKept(s: Stores, c: Command)
    ensures s.hashLocked ==> Next(s, c).hashLocked
  {
    hide HashTable.Vacant, SetResult, DeleteResult, AfterSet, AfterDelete;
    var e, r := c.engine, c.request;
    SetNeedsBoth(s, e, r.key, r.value);
    if r.op.Set? && r.key.Ptr? && r.value.Ptr? { SetKeepsLock(s, e, r.key.s, r.value.s); }
    if r.op.Delete? && r.key.Ptr? { DeleteKeepsLock(s, e, r.key.s); }
  }

  lemma SetNeedsBoth(s: Stores, e: Engine, k: CharPtr, v: CharPtr)
    ensures SetResult(s, e, k, v) == 0 ==> k.Ptr? && v.Ptr?
    ensures DeleteResult(s, e, k) == 0 ==> k.Ptr?
  {
  }

  lemma SetKeepsLock(s: Stores, e: Engine, k: CString, v: CString)
    ensures AfterSet(s, e, k, v).hashLocked == s.hashLocked
  {
    hide Push;
  }

  lemma DeleteKeepsLock(s: Stores, e: Engine, k: CString)
    ensures AfterDelete(s, e, k).hashLocked == s.hashLocked
  {
    hide Pop;
  }

  /**
   Exactly when nothing blocks: every hash delete that meets an empty bucket is the last command
   that takes the hash engine's mutex.
   */
  lemma {:induction false} NeverBlocksIff(s: Stores, cs: seq<Command>)
    requires !s.hashLocked
    ensures NeverBlocks(s, cs) <==> LockedOnlyAtEnd(s.hash, Requests(HashEngine, cs))
    decreases |cs|
  {
    if cs != [] {
      hide Next, NoneLocks, Requests, Locks, LeavesLocked, HashMapAfter;
      var c := cs[0];
      FirstRequest(cs);
      if c.engine == HashEngine {
        HashNext(s, c.request);
        if LeavesLocked(s.hash, c.request) {
          LockedBlocks(Next(s, c), cs[1..]);
        } else {
          NeverBlocksIff(Next(s, c), cs[1..]);
        }
      } else {
        OtherEnginesKept(s, c, HashEngine);
        NeverBlocksIff(Next(s, c), cs[1..]);
      }
    }
  }

  /** A trace that blocks leaves a request to the hash engine without a reply; any other answers them all. */
  lemma {:induction false} AllAnswered(s: Stores, e: Engine, cs: seq<Command>)
    ensures NeverBlocks(s, cs) ==> |Replies(s, e, cs)| == |Requests(e, cs)|
    ensures |Replies(s, e, cs)| <= |Requests(e, cs)|
    ensures !NeverBlocks(s, cs) ==> |Replies(s, HashEngine, cs)| < |Requests(HashEngine, cs)|
    decreases |cs|
  {
    hide Next, Answer;
    if cs != [] && !Blocks(s, cs[0]) {
      AllAnswered(Next(s, cs[0]), e, cs[1..]);
    }
  }

  /**
   Any trace that makes the same requests of every engine, in whatever interleaving: the
   engines answer every request and give identical replies if and only if each SET names an
   absent key while fewer than 1023 are live, each GET names a present key, and a delete that
   meets an empty hash bucket is the last request that locks; and then the replies are those of
   a plain map.
   */
  lemma EnginesAgree(cs: seq<Command>, rs: seq<Request>)
    requires forall e :: Requests(e, cs) == rs
    requires forall i :: 0 <= i < |rs| ==> Proper(rs[i])
    ensures AllAllowed(map[], rs) && LockedOnlyAtEnd(map[], rs) ==> forall e :: Replies(EMPTY, e, cs) == MapReplies(map[], rs)
    ensures (forall e :: |Replies(EMPTY, e, cs)| == |rs| && Replies(EMPTY, e, cs) == Replies(EMPTY, ArrayEngine, cs)) <==>
      AllAllowed(map[], rs) && LockedOnlyAtEnd(map[], rs)
  {
    hide AllAllowed, Replies, Alone, Requests, MapReplies, NeverBlocks, LockedOnlyAtEnd;
    NeverBlocksIff(EMPTY, cs);
    assert Requests(HashEngine, cs) == rs;
    if NeverBlocks(EMPTY, cs) {
      AgreeUnblocked(cs, rs);
    } else {
      AllAnswered(EMPTY, HashEngine, cs);
      assert |Replies(EMPTY, HashEngine, cs)| != |rs|;
    }
  }

  lemma AgreeUnblocked(cs: seq<Command>, rs: seq<Request>)
    requires forall e :: Requests(e, cs) == rs
    requires (forall i :: 0 <= i < |rs| ==> Proper(rs[i])) && NeverBlocks(EMPTY, cs)
    ensures forall e :: |Replies(EMPTY, e, cs)| == |rs|
    ensures AllAllowed(map[], rs) ==> forall e :: Replies(EMPTY, e, cs) == MapReplies(map[], rs)
    ensures (forall e :: Replies(EMPTY, e, cs) == Replies(EMPTY, ArrayEngine, cs)) <==> AllAllowed(map[], rs)
  {
    hide AllAllowed, Replies, Alone, Requests, MapReplies, NeverBlocks;
    forall e ensures Replies(EMPTY, e, cs) == Alone(EMPTY, e, rs) && Holds(e, EMPTY, map[]) && |Replies(EMPTY, e, cs)| == |rs| {
      Isolation(EMPTY, EMPTY, e, cs);
      AllAnswered(EMPTY, e, cs);
    }
    if AllAllowed(map[], rs) {
      forall e ensures Replies(EMPTY, e, cs) == MapReplies(map[], rs) {
        RefinesMap(e, EMPTY, map[], rs);
      }
    } else {
      var st: Engine -> Stores := _ => EMPTY;
      var e := TellsApart(st, map[], rs);
      assert Replies(EMPTY, e, cs) != Replies(EMPTY, ArrayEngine, cs);
    }
  }
}
