/** `kvs_protocol` of kvstore.c: a message is split into its words, and the words are carried out. */
module Message {
  import opened Strings
  import opened Protocol
  import opened Tokens
  import Parser
  import KvStore

  /** The string a token pointer reads in the buffer. */
  method ReadString(buf: array<int>, p: nat) returns (s: seq<int>)
    ensures s == StringAt(buf[..], p)
  {
    s := [];
    var i := p;
    while i < buf.Length && buf[i] != 0
      invariant p <= i && StringAt(buf[..], p) == s + StringAt(buf[..], i)
      decreases buf.Length - i
    {
      s := s + [buf[i]];
      i := i + 1;
    }
  }

  lemma TextIsString(msg: CString, r: Stretch)
    ensures forall i :: 0 <= i < |Text(msg, r)| ==> 1 <= Text(msg, r)[i] <= 255
  {
  }

  function Word(msg: CString, r: Stretch): CString {
    TextIsString(msg, r);
    Text(msg, r)
  }

  /** The `tokens` array of a message: its runs, then null pointers. */
  ghost function Pointers(msg: CString): (ps: seq<CharPtr>)
    ensures |ps| == MAX_TOKENS
    ensures forall k :: 0 <= k < MAX_TOKENS ==> ps[k] == if k < |Runs(msg)| then Ptr(Word(msg, Runs(msg)[k])) else Null
  {
    var rs := Runs(msg);
    seq(MAX_TOKENS, k requires 0 <= k < MAX_TOKENS => if k < |rs| then Ptr(Word(msg, rs[k])) else Null)
  }

  /** What became of a message. */
  datatype Handled = Overrun | Handled(out: Parser.Outcome)

  method Split(buf: array<int>, ghost msg: CString) returns (tokens: seq<CharPtr>, count: nat, overrun: bool)
    requires |msg| < buf.Length && buf[..|msg|] == msg && buf[|msg|] == 0
    modifies buf
    ensures overrun <==> |Runs(msg)| > 32
    ensures !overrun ==> tokens == Pointers(msg) && count == |Runs(msg)|
  {
    hide RunsBefore, Starts, IsRun, StringAt, Text;
    var offsets := new int[MAX_TOKENS](_ => 0);
    ghost var runs;
    count, overrun, runs := SplitTokens(offsets, buf, msg);
    StartsAreRuns(msg, Runs(msg), |msg|);
    tokens := seq(MAX_TOKENS, _ => Null);
    if !overrun {
      RunsUnique(msg, runs, Runs(msg));
      ghost var now := buf[..];
      for k := 0 to count
        modifies {}
        invariant buf[..] == now && |tokens| == MAX_TOKENS
        invariant forall i :: 0 <= i < MAX_TOKENS ==> tokens[i] == if i < k then Ptr(Word(msg, runs[i])) else Null
      {
        assert offsets[k] == runs[k].start;
        var s := ReadString(buf, offsets[k]);
        assert s == Text(msg, runs[k]);
        TextIsString(msg, runs[k]);
        tokens := tokens[k := Ptr(s)];
      }
      assert tokens == Pointers(msg);
    }
  }

  /** The whole of `kvs_protocol` on a message buffer. */
  method HandleMessage(store: KvStore.KvStore, buf: array<int>, ghost msg: CString) returns (h: Handled)
    requires store.Valid() && |msg| < buf.Length && buf[..|msg|] == msg && buf[|msg|] == 0
    requires var a := Parser.Decode(Pointers(msg), |Runs(msg)|);
      |Runs(msg)| <= MAX_TOKENS && a.Do? ==> KvStore.Defined(a.c)
    modifies buf
    modifies store.arr, store.arr.table, store.rb, store.rb.nil, store.rb.nodes, store.hash, store.hash.nodes, store.hash.repr
    modifies store.dhash, store.dhash.table, store.dhash.repr, store.skip, store.skip.list
    ensures h.Overrun? <==> |Runs(msg)| > 32
    ensures h.Overrun? || store.Valid()
    ensures h.Handled? ==> Carried(Parser.Decode(Pointers(msg), |Runs(msg)|), old(store.View()), h.out, store.View())
  {
    hide KvStore.KvStore.Valid, KvStore.KvStore.View, KvStore.Defined, Next, Answer;
    var tokens, count, overrun;
    tokens, count, overrun := Split(buf, msg);
    if overrun {
      return Overrun;
    }
    var out := Parser.ParseProtocol(store, tokens, count);
    h := Handled(out);
  }

  /**
   What became of received bytes. Exactly a buffer without a NUL is read past its end, and exactly
   a message of more than 32 words is written behind the end of `tokens`.
   */
  datatype Received = Unterminated | Message(h: Handled)

  /** Where the message ends, or the length of a buffer that holds no NUL. */
  method Terminator(buf: array<int>) returns (n: nat)
    ensures n <= buf.Length && (n < buf.Length ==> buf[n] == 0)
    ensures forall i :: 0 <= i < n ==> buf[i] != 0
  {
    n := 0;
    while n < buf.Length && buf[n] != 0
      invariant n <= buf.Length && forall i :: 0 <= i < n ==> buf[i] != 0
    {
      n := n + 1;
    }
  }

  /** The message in a buffer of bytes: what stands before the first NUL. */
  ghost function MessageIn(buf: seq<int>): CString
    requires forall i :: 0 <= i < |buf| ==> 0 <= buf[i] <= 255
  {
    StringIsBytes(buf, 0);
    StringAt(buf, 0)
  }

  lemma {:induction false} StringIsBytes(buf: seq<int>, p: nat)
    requires forall i :: 0 <= i < |buf| ==> 0 <= buf[i] <= 255
    ensures forall i :: 0 <= i < |StringAt(buf, p)| ==> 1 <= StringAt(buf, p)[i] <= 255
    decreases |buf| - p
  {
    if p < |buf| && buf[p] != 0 { StringIsBytes(buf, p + 1); }
  }

  /**
   `kvs_protocol` on the whole receive buffer, zeroed before `recv` fills a part of it. `strtok`
   goes on to the first NUL whatever the number of words, so it leaves a buffer without one.
   */
  method HandleBuffer(store: KvStore.KvStore, buf: array<int>) returns (received: Received)
    requires store.Valid() && forall i :: 0 <= i < buf.Length ==> 0 <= buf[i] <= 255
    requires var msg := MessageIn(buf[..]);
      var a := Parser.Decode(Pointers(msg), |Runs(msg)|);
      0 in buf[..] && |Runs(msg)| <= MAX_TOKENS && a.Do? ==> KvStore.Defined(a.c)
    modifies buf
    modifies store.arr, store.arr.table, store.rb, store.rb.nil, store.rb.nodes, store.hash, store.hash.nodes, store.hash.repr
    modifies store.dhash, store.dhash.table, store.dhash.repr, store.skip, store.skip.list
    ensures received.Unterminated? <==> 0 !in old(buf[..])
    ensures received.Message? ==>
      && (received.h.Overrun? <==> |Runs(old(MessageIn(buf[..])))| > 32)
      && (received.h.Overrun? || store.Valid())
    ensures received.Message? && received.h.Handled? ==>
      var msg := old(MessageIn(buf[..]));
      Carried(Parser.Decode(Pointers(msg), |Runs(msg)|), old(store.View()), received.h.out, store.View())
  {
    hide KvStore.KvStore.Valid, KvStore.KvStore.View, KvStore.Defined, Next, Answer, Carried, Parser.Decode, StringAt;
    var n := Terminator(buf);
    if n == buf.Length {
      return Unterminated;
    }
    assert buf[..][n] == 0;
    ReadsTo(buf[..], 0, n);
    ghost var msg := MessageIn(buf[..]);
    assert buf[..n] == msg;
    var h := HandleMessage(store, buf, msg);
    received := Message(h);
  }

  /** What an action does to the stores and answers. */
  ghost predicate Carried(a: Parser.Action, before: Stores, out: Parser.Outcome, after: Stores) {
    match a
    case Ignore(ret) => out == Parser.Returned(ret) && after == before
    case Abort => out == Parser.Aborted && after == before
    case Do(c) =>
      if Blocks(before, c) then out == Parser.Hung && after == before
      else out == Parser.Replied(Answer(before, c)) && after == Next(before, c)
  }

  /** The command that a list of words stands for when the first names `op` of engine `e`. */
  function Meant(e: Engine, op: Op, ts: seq<CString>): Command {
    Command(e, Request(op, if |ts| > 1 then Ptr(ts[1]) else Null, if |ts| > 2 then Ptr(ts[2]) else Null))
  }

  lemma {:induction false} JoinIsString(ts: seq<CString>)
    ensures forall i :: 0 <= i < |Join(ts)| ==> 1 <= Join(ts)[i] <= 255
  {
    if |ts| > 1 {
      JoinIsString(ts[..|ts| - 1]);
    }
  }

  /** The words of a joined message are the words joined. */
  lemma PointersOfJoined(ts: seq<CString>, msg: CString)
    requires 0 < |ts| <= MAX_TOKENS && msg == Join(ts) && forall k :: 0 <= k < |ts| ==> IsToken(ts[k])
    ensures |Runs(msg)| == |ts|
    ensures forall k :: 0 <= k < MAX_TOKENS ==> Pointers(msg)[k] == if k < |ts| then Ptr(ts[k]) else Null
  {
    hide RunsBefore, IsRun, Join, JoinedRuns, Text;
    JoinMaximal(ts);
    RunsUnique(msg, Runs(msg), JoinedRuns(ts));
  }

  /**
   A message of the word for an operation of an engine, a key and a value, joined by single
   spaces, carries out exactly that operation of that engine with that key and value; with fewer
   words the missing ones are null.
   */
  method HandleCommand(store: KvStore.KvStore, buf: array<int>, ghost ts: seq<CString>, ghost e: Engine, ghost op: Op)
    returns (h: Handled)
    requires 0 < |ts| <= MAX_TOKENS && forall k :: 0 <= k < |ts| ==> IsToken(ts[k])
    requires |Join(ts)| < buf.Length && buf[..|Join(ts)|] == Join(ts) && buf[|Join(ts)|] == 0
    requires ts[0] == Parser.WordOf(e, op) && (e.ArrayEngine? && op.Set? ==> |ts| == 3)
    requires store.Valid() && KvStore.Defined(Meant(e, op, ts))
    modifies buf
    modifies store.arr, store.arr.table, store.rb, store.rb.nil, store.rb.nodes, store.hash, store.hash.nodes, store.hash.repr
    modifies store.dhash, store.dhash.table, store.dhash.repr, store.skip, store.skip.list
    ensures h.Handled? && store.Valid()
    ensures Carried(Parser.Do(Meant(e, op, ts)), old(store.View()), h.out, store.View())
  {
    hide KvStore.KvStore.Valid, KvStore.KvStore.View, KvStore.Defined, Next, Answer, Join, IsToken, Carried, Parser.Decode;
    JoinIsString(ts);
    ghost var msg: CString := Join(ts);
    PointersOfJoined(ts, msg);
    Parser.EveryCommandHasItsWord(e, op, Pointers(msg), |ts|);
    h := HandleMessage(store, buf, msg);
  }
}
