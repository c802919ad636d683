/** The server's five engines side by side and the dispatcher of kvstore.c that drives them. */
module KvStore {
  import opened Bindings
  import opened Strings
  import opened Protocol
  import opened Chains
  import ArrayStore
  import RbTree
  import HashTable
  import DHash
  import SkipList

  /** What an engine demands of its arguments without checking it. */
  predicate Defined(c: Command) {
    var r := c.request;
    match c.engine
    case ArrayEngine => true
    case RbEngine => r.op.Set? ==> Fits(r)
    case HashEngine => (r.op.Set? ==> Fits(r)) && (r.key.Ptr? ==> HashTable.Bucketed(r.key.s))
    case DHashEngine => Proper(r)
    case SkipEngine => (r.op.Set? ==> Fits(r)) && (r.op.Delete? || r.op.Exist? ==> r.key.Ptr?)
  }

  predicate Fits(r: Request) {
    (r.key.Ptr? ==> KeyFits(r.key.s)) && (r.value.Ptr? ==> ValueFits(r.value.s))
  }

  method OnArray(t: ArrayStore.ArrayStore, r: Request, ghost s: Stores) returns (reply: Reply)
    requires t.Valid() && s.arr == t.Map()
    modifies t, t.table
    ensures t.Valid() && reply == Answer(s, Command(ArrayEngine, r)) && t.Map() == Next(s, Command(ArrayEngine, r)).arr
  {
    hide ArrayStore.ArrayStore.Valid, ArrayStore.ArrayStore.Map;
    match r.op
    case Set =>
      var res := t.Set(r.key, r.value);
      reply := Result(res);
    case Get =>
      var value := t.Get(r.key);
      reply := Found(value);
    case Count =>
      var res := t.Count();
      reply := Number(res);
    case Delete =>
      var res := t.Delete(r.key);
      reply := Result(res);
    case Exist =>
      var res := t.Exist(r.key);
      reply := Number(res);
  }

  method OnRbTree(t: RbTree.RbTree, r: Request, ghost s: Stores) returns (reply: Reply)
    requires t.Valid() && s.rb == t.Map() && Defined(Command(RbEngine, r))
    modifies t, t.nil, t.nodes
    ensures t.Valid() && t.nil == old(t.nil) && fresh(t.nodes - old(t.nodes))
    ensures reply == Answer(s, Command(RbEngine, r)) && t.Map() == Next(s, Command(RbEngine, r)).rb
  {
    hide RbTree.RbTree.Valid, RbTree.RbTree.Map;
    match r.op
    case Set =>
      var res := t.Put(r.key, r.value);
      reply := Result(res);
    case Get =>
      var value := t.Get(r.key);
      reply := Found(value);
    case Count =>
      var res := t.Count();
      reply := Number(res);
    case Delete =>
      var res := t.DeleteKey(r.key);
      reply := Result(res);
    case Exist =>
      var res := t.Exist(r.key);
      reply := Number(res);
  }

  method OnHash(t: HashTable.HashTable, r: Request, ghost s: Stores) returns (reply: Reply)
    requires t.Valid() && s.hash == t.Map() && s.hashLocked == t.locked
    requires Defined(Command(HashEngine, r)) && !Blocks(s, Command(HashEngine, r))
    modifies t, t.nodes, t.repr
    ensures t.Valid() && fresh(t.repr - old(t.repr))
    ensures reply == Answer(s, Command(HashEngine, r)) && t.Map() == Next(s, Command(HashEngine, r)).hash
    ensures t.locked == Next(s, Command(HashEngine, r)).hashLocked
  {
    hide HashTable.HashTable.Map, HashTable.Vacant, DistinctKeys, Flat;
    match r.op
    case Set =>
      var res := t.Put(r.key, r.value);
      reply := Result(res);
    case Get =>
      var value := t.Get(r.key);
      reply := Found(value);
    case Count =>
      var res := t.Count();
      reply := Number(res);
    case Delete =>
      if r.key.Ptr? { HashNext(s, r); }
      var res := t.Delete(r.key);
      reply := Result(res);
    case Exist =>
      var res := t.Exist(r.key);
      reply := Number(res);
  }

  method OnDHash(t: DHash.DHashTable, r: Request, ghost s: Stores) returns (reply: Reply)
    requires t.Valid() && s.dhash == t.Contents() && Defined(Command(DHashEngine, r))
    modifies t, t.table, t.repr
    ensures t.Valid() && fresh(t.repr - old(t.repr))
    ensures reply == Answer(s, Command(DHashEngine, r)) && t.Contents() == Next(s, Command(DHashEngine, r)).dhash
  {
    hide DHash.DHashTable.Contents, Flat, Total, Push, Pop;
    match r.op
    case Set =>
      var res := t.Put(r.key.s, r.value.s);
      reply := Result(res);
    case Get =>
      var value := t.Get(r.key.s);
      reply := Found(value);
    case Count =>
      var res := t.Count();
      reply := Number(res);
    case Delete =>
      var res := t.Delete(r.key.s);
      reply := Result(res);
    case Exist =>
      var res := t.Exist(r.key.s);
      reply := Number(res);
  }

  method OnSkipList(t: SkipList.SkipList, r: Request, ghost s: Stores) returns (reply: Reply)
    requires t.Valid() && s.skip == t.Map() && s.overwrites == t.overwrites && Defined(Command(SkipEngine, r))
    modifies t, t.list
    ensures t.Valid() && forall n :: n in t.list ==> n in old(t.list) || fresh(n)
    ensures reply == Answer(s, Command(SkipEngine, r)) && t.Map() == Next(s, Command(SkipEngine, r)).skip
    ensures t.overwrites == Next(s, Command(SkipEngine, r)).overwrites
  {
    hide SkipList.SkipList.Valid, SkipList.SkipList.Map;
    match r.op
    case Set =>
      var res := t.Put(r.key, r.value);
      reply := Result(res);
    case Get =>
      var value := t.Get(r.key);
      reply := Found(value);
    case Count =>
      var res := t.Count();
      reply := Number(res);
    case Delete =>
      var res := t.DeleteKey(r.key.s);
      reply := Result(res);
    case Exist =>
      var res := t.Exist(r.key.s);
      reply := Number(res);
  }

  /** A command that waits for a mutex nobody will release has no reply. */
  datatype Response = Answered(reply: Reply) | Blocked

  class KvStore {
    const arr: ArrayStore.ArrayStore
    const rb: RbTree.RbTree
    const hash: HashTable.HashTable
    const dhash: DHash.DHashTable
    const skip: SkipList.SkipList

    /** `init_kvengine`. */
    constructor ()
      ensures Valid() && View() == EMPTY
      ensures fresh(arr) && fresh(arr.table) && fresh(rb) && fresh(rb.nil) && fresh(rb.nodes)
      ensures fresh(hash) && fresh(hash.nodes) && fresh(hash.repr) && fresh(dhash) && fresh(dhash.table) && fresh(dhash.repr)
      ensures fresh(skip) && forall n :: n in skip.list ==> fresh(n)
    {
      hide ArrayStore.ArrayStore.Valid, ArrayStore.ArrayStore.Map, RbTree.RbTree.Valid, RbTree.RbTree.Map;
      hide HashTable.HashTable.Valid, HashTable.HashTable.Map, DHash.DHashTable.Valid;
      hide SkipList.SkipList.Valid, SkipList.SkipList.Map, StacksOf;
      arr := new ArrayStore.ArrayStore();
      rb := new RbTree.RbTree();
      hash := new HashTable.HashTable();
      dhash := new DHash.DHashTable();
      skip := new SkipList.SkipList();
      new;
      EmptyMaps();
    }

    lemma EmptyMaps()
      requires skip.list == [skip.header]
      ensures StacksOf([]) == map[] && skip.Map() == map[]
    {
      assert skip.list[1..] == [];
    }

    /** The two chained tables share no node and no bucket array. */
    ghost predicate Valid()
      reads arr, arr.table, rb, rb.nil, rb.nodes, hash, hash.nodes, hash.repr
      reads dhash, dhash.table, dhash.repr, skip, skip.list
    {
      && arr.Valid() && rb.Valid() && hash.Valid() && dhash.Valid() && skip.Valid()
      && hash.nodes != dhash.table
      && hash.repr !! dhash.repr
    }

    ghost function View(): Stores
      requires Valid()
      reads arr, arr.table, rb, rb.nil, rb.nodes, hash, hash.nodes, hash.repr
      reads dhash, dhash.table, dhash.repr, skip, skip.list
    {
      Stores(arr.Map(), rb.Map(), hash.Map(), hash.locked, dhash.Contents(), skip.Map(), skip.overwrites)
    }

    method Execute(c: Command) returns (response: Response)
      requires Valid() && Defined(c)
      modifies arr, arr.table, rb, rb.nil, rb.nodes, hash, hash.nodes, hash.repr
      modifies dhash, dhash.table, dhash.repr, skip, skip.list
      ensures Valid() && rb.nil == old(rb.nil) && fresh(rb.nodes - old(rb.nodes))
      ensures fresh(hash.repr - old(hash.repr)) && fresh(dhash.repr - old(dhash.repr))
      ensures forall n :: n in skip.list ==> n in old(skip.list) || fresh(n)
      ensures if Blocks(old(View()), c) then response == Blocked && View() == old(View())
        else response == Answered(Answer(old(View()), c)) && View() == Next(old(View()), c)
    {
      hide Valid, View, Next, Answer, Defined;
      ViewOfLock();
      if hash.locked && Locks(c) {
        return Blocked;
      }
      var reply := Dispatch(c);
      response := Answered(reply);
    }

    lemma ViewOfLock()
      requires Valid()
      ensures View().hashLocked == hash.locked
    {
    }

    method Dispatch(c: Command) returns (reply: Reply)
      requires Valid() && Defined(c) && !Blocks(View(), c)
      modifies arr, arr.table, rb, rb.nil, rb.nodes, hash, hash.nodes, hash.repr
      modifies dhash, dhash.table, dhash.repr, skip, skip.list
      ensures Valid() && rb.nil == old(rb.nil) && fresh(rb.nodes - old(rb.nodes))
      ensures fresh(hash.repr - old(hash.repr)) && fresh(dhash.repr - old(dhash.repr))
      ensures forall n :: n in skip.list ==> n in old(skip.list) || fresh(n)
      ensures reply == Answer(old(View()), c) && View() == Next(old(View()), c)
    {
      hide ArrayStore.ArrayStore.Valid, RbTree.RbTree.Valid, HashTable.HashTable.Valid, DHash.DHashTable.Valid;
      hide SkipList.SkipList.Valid, Next, Answer, View, Blocks;
      match c.engine
      case ArrayEngine => reply := ToArray(c.request);
      case RbEngine => reply := ToRbTree(c.request);
      case HashEngine => reply := ToHash(c.request);
      case DHashEngine => reply := ToDHash(c.request);
      case SkipEngine => reply := ToSkipList(c.request);
    }

    /** A whole run of commands: the abstract run, reply by reply, until one does not return. */
    method ExecuteAll(cs: seq<Command>) returns (replies: seq<Reply>)
      requires Valid() && forall i :: 0 <= i < |cs| ==> Defined(cs[i])
      modifies arr, arr.table, rb, rb.nil, rb.nodes, hash, hash.nodes, hash.repr
      modifies dhash, dhash.table, dhash.repr, skip, skip.list
      ensures Valid() && View() == Run(old(View()), cs)
      ensures replies == Answers(old(View()), cs)
    {
      hide Valid, View, Defined, Next, Answer, Blocks;
      replies := [];
      ghost var s0 := View();
      for i := 0 to |cs|
        invariant Valid() && rb.nil == old(rb.nil) && fresh(rb.nodes - old(rb.nodes))
        invariant fresh(hash.repr - old(hash.repr)) && fresh(dhash.repr - old(dhash.repr))
        invariant forall n :: n in skip.list ==> n in old(skip.list) || fresh(n)
        invariant Run(s0, cs) == Run(View(), cs[i..]) && Answers(s0, cs) == replies + Answers(View(), cs[i..])
      {
        assert forall k :: 0 <= k < |skip.list| ==> skip.list[k] in old(skip.list) || fresh(skip.list[k]);
        assert forall n :: n in rb.nodes ==> n in old(rb.nodes) || fresh(n);
        var response := Execute(cs[i]);
        if response.Blocked? {
          return;
        }
        assert cs[i..][1..] == cs[i + 1..];
        replies := replies + [response.reply];
      }
    }

    method ToArray(r: Request) returns (reply: Reply)
      requires Valid()
      modifies arr, arr.table
      ensures Valid()
      ensures reply == Answer(old(View()), Command(ArrayEngine, r)) && View() == Next(old(View()), Command(ArrayEngine, r))
    {
      hide ArrayStore.ArrayStore.Valid, ArrayStore.ArrayStore.Map, RbTree.RbTree.Valid, RbTree.RbTree.Map;
      hide HashTable.HashTable.Valid, HashTable.HashTable.Map, DHash.DHashTable.Valid, DHash.DHashTable.Contents;
      hide SkipList.SkipList.Valid, SkipList.SkipList.Map, Next, Answer;
      ghost var s := View();
      reply := OnArray(arr, r, s);
      OtherKept(s, Command(ArrayEngine, r));
    }

    method ToRbTree(r: Request) returns (reply: Reply)
      requires Valid() && Defined(Command(RbEngine, r))
      modifies rb, rb.nil, rb.nodes
      ensures Valid() && rb.nil == old(rb.nil) && fresh(rb.nodes - old(rb.nodes))
      ensures reply == Answer(old(View()), Command(RbEngine, r)) && View() == Next(old(View()), Command(RbEngine, r))
    {
      hide ArrayStore.ArrayStore.Valid, ArrayStore.ArrayStore.Map, RbTree.RbTree.Valid, RbTree.RbTree.Map;
      hide HashTable.HashTable.Valid, HashTable.HashTable.Map, DHash.DHashTable.Valid, DHash.DHashTable.Contents;
      hide SkipList.SkipList.Valid, SkipList.SkipList.Map, Next, Answer;
      ghost var s := View();
      reply := OnRbTree(rb, r, s);
      OtherKept(s, Command(RbEngine, r));
    }

    method ToHash(r: Request) returns (reply: Reply)
      requires Valid() && Defined(Command(HashEngine, r)) && !Blocks(View(), Command(HashEngine, r))
      modifies hash, hash.nodes, hash.repr
      ensures Valid() && fresh(hash.repr - old(hash.repr))
      ensures reply == Answer(old(View()), Command(HashEngine, r)) && View() == Next(old(View()), Command(HashEngine, r))
    {
      hide ArrayStore.ArrayStore.Valid, ArrayStore.ArrayStore.Map, RbTree.RbTree.Valid, RbTree.RbTree.Map;
      hide HashTable.HashTable.Valid, HashTable.HashTable.Map, DHash.DHashTable.Valid, DHash.DHashTable.Contents;
      hide SkipList.SkipList.Valid, SkipList.SkipList.Map, Next, Answer;
      ghost var s := View();
      reply := OnHash(hash, r, s);
      OtherKept(s, Command(HashEngine, r));
    }

    method ToDHash(r: Request) returns (reply: Reply)
      requires Valid() && Defined(Command(DHashEngine, r))
      modifies dhash, dhash.table, dhash.repr
      ensures Valid() && fresh(dhash.repr - old(dhash.repr))
      ensures reply == Answer(old(View()), Command(DHashEngine, r)) && View() == Next(old(View()), Command(DHashEngine, r))
    {
      hide ArrayStore.ArrayStore.Valid, ArrayStore.ArrayStore.Map, RbTree.RbTree.Valid, RbTree.RbTree.Map;
      hide HashTable.HashTable.Valid, HashTable.HashTable.Map, DHash.DHashTable.Valid, DHash.DHashTable.Contents;
      hide SkipList.SkipList.Valid, SkipList.SkipList.Map, Next, Answer;
      ghost var s := View();
      reply := OnDHash(dhash, r, s);
      OtherKept(s, Command(DHashEngine, r));
    }

    method ToSkipList(r: Request) returns (reply: Reply)
      requires Valid() && Defined(Command(SkipEngine, r))
      modifies skip, skip.list
      ensures Valid() && forall n :: n in skip.list ==> n in old(skip.list) || fresh(n)
      ensures reply == Answer(old(View()), Command(SkipEngine, r)) && View() == Next(old(View()), Command(SkipEngine, r))
    {
      hide ArrayStore.ArrayStore.Valid, ArrayStore.ArrayStore.Map, RbTree.RbTree.Valid, RbTree.RbTree.Map;
      hide HashTable.HashTable.Valid, HashTable.HashTable.Map, DHash.DHashTable.Valid, DHash.DHashTable.Contents;
      hide SkipList.SkipList.Valid, SkipList.SkipList.Map, Next, Answer;
      ghost var s := View();
      reply := OnSkipList(skip, r, s);
      OtherKept(s, Command(SkipEngine, r));
    }
  }

  lemma OtherKept(s: Stores, c: Command)
    ensures c.engine != ArrayEngine ==> Next(s, c).arr == s.arr
    ensures c.engine != RbEngine ==> Next(s, c).rb == s.rb
    ensures c.engine != HashEngine ==> Next(s, c).hash == s.hash && Next(s, c).hashLocked == s.hashLocked
    ensures c.engine != DHashEngine ==> Next(s, c).dhash == s.dhash
    ensures c.engine != SkipEngine ==> Next(s, c).skip == s.skip && Next(s, c).overwrites == s.overwrites
  {
    hide Next;
    forall e | e != c.engine ensures SameFor(e, s, Next(s, c)) { OtherEnginesKept(s, c, e); }
    assert c.engine != ArrayEngine ==> SameFor(ArrayEngine, s, Next(s, c));
    assert c.engine != RbEngine ==> SameFor(RbEngine, s, Next(s, c));
    assert c.engine != HashEngine ==> SameFor(HashEngine, s, Next(s, c));
    assert c.engine != DHashEngine ==> SameFor(DHashEngine, s, Next(s, c));
    assert c.engine != SkipEngine ==> SameFor(SkipEngine, s, Next(s, c));
  }

  /**
   A server from its start: in any interleaving that makes the same requests of every engine,
   each engine's replies are those of the abstract engine; all requests are answered, with
   identical replies, exactly under the condition of `EnginesAgree`, and then as a map would.
   */
  method Serve(cs: seq<Command>, ghost rs: seq<Request>) returns (store: KvStore, replies: seq<Reply>)
    requires forall i :: 0 <= i < |cs| ==> Defined(cs[i])
    requires (forall e :: Requests(e, cs) == rs) && forall i :: 0 <= i < |rs| ==> Proper(rs[i])
    ensures store.Valid() && store.View() == Run(EMPTY, cs)
    ensures forall e :: Selected(e, cs, replies) == Replies(EMPTY, e, cs)
    ensures (forall e :: |Selected(e, cs, replies)| == |rs| && Selected(e, cs, replies) == Selected(ArrayEngine, cs, replies)) <==>
      AllAllowed(map[], rs) && LockedOnlyAtEnd(map[], rs)
    ensures AllAllowed(map[], rs) && LockedOnlyAtEnd(map[], rs) ==>
      forall e :: Selected(e, cs, replies) == MapReplies(map[], rs)
  {
    hide KvStore.Valid, KvStore.View, Defined, Run, Answers, Replies, Selected, AllAllowed, LockedOnlyAtEnd, MapReplies, Requests;
    store := new KvStore();
    assert forall k :: 0 <= k < |store.skip.list| ==> store.skip.list[k] in store.skip.list;
    replies := store.ExecuteAll(cs);
    forall e ensures Selected(e, cs, replies) == Replies(EMPTY, e, cs) { RepliesAreAnswers(EMPTY, e, cs); }
    EnginesAgree(cs, rs);
  }
}
