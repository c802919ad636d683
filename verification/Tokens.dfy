/**
 `kvs_split_tokens` of kvstore.c on a message buffer. `strtok` (section 7.24.5.8 of ISO/IEC
 9899:2011) writes a NUL behind each token, so the tokens are offsets into the buffer.
 */
module Tokens {
  const SPACE := 32
  const MAX_TOKENS := 32

  /** The string a pointer to offset `p` reads: the bytes up to the first NUL. */
  function StringAt(buf: seq<int>, p: nat): seq<int>
    decreases |buf| - p
  {
    if p >= |buf| || buf[p] == 0 then [] else [buf[p]] + StringAt(buf, p + 1)
  }

  lemma {:induction false} ReadsTo(buf: seq<int>, p: nat, end: nat)
    requires p <= end < |buf| && buf[end] == 0 && forall i :: p <= i < end ==> buf[i] != 0
    ensures StringAt(buf, p) == buf[p..end]
    decreases end - p
  {
    if p < end {
      ReadsTo(buf, p + 1, end);
      assert buf[p..end] == [buf[p]] + buf[p + 1..end];
    }
  }

  datatype Stretch = Stretch(start: nat, end: nat)

  predicate StartsAt(msg: seq<int>, i: nat)
    requires i < |msg|
  {
    msg[i] != SPACE && (i == 0 || msg[i - 1] == SPACE)
  }

  /** How many space-free runs start before `p`. */
  function Starts(msg: seq<int>, p: nat): nat
    requires p <= |msg|
  {
    if p == 0 then 0 else Starts(msg, p - 1) + if StartsAt(msg, p - 1) then 1 else 0
  }

  /** A space-free stretch that cannot be extended. */
  ghost predicate IsRun(msg: seq<int>, r: Stretch) {
    && r.start < r.end <= |msg|
    && (forall i :: r.start <= i < r.end ==> msg[i] != SPACE)
    && (r.start == 0 || msg[r.start - 1] == SPACE)
    && (r.end == |msg| || msg[r.end] == SPACE)
  }

  /** `rs` are, in order, runs that cover every byte before `p` that is not a space. */
  ghost predicate RunsBefore(msg: seq<int>, rs: seq<Stretch>, p: nat)
    requires p <= |msg|
  {
    && (forall k :: 0 <= k < |rs| ==> IsRun(msg, rs[k]) && rs[k].end <= p)
    && (forall k, l :: 0 <= k < l < |rs| ==> rs[k].end < rs[l].start)
    && (forall i :: 0 <= i < p && msg[i] != SPACE ==> exists k :: 0 <= k < |rs| && rs[k].start <= i < rs[k].end)
  }

  /** Exactly the maximal space-free runs of the message, in order. */
  ghost predicate MaximalRuns(msg: seq<int>, rs: seq<Stretch>) {
    RunsBefore(msg, rs, |msg|)
  }

  function Text(msg: seq<int>, r: Stretch): seq<int> {
    if r.start <= r.end <= |msg| then msg[r.start..r.end] else []
  }

  lemma {:induction false} NoStarts(msg: seq<int>, a: nat, b: nat)
    requires a <= b <= |msg| && forall i :: a <= i < b ==> !StartsAt(msg, i)
    ensures Starts(msg, b) == Starts(msg, a)
  {
    if a < b { NoStarts(msg, a, b - 1); }
  }

  lemma {:induction false} StartsGrow(msg: seq<int>, a: nat, b: nat)
    requires a <= b <= |msg|
    ensures Starts(msg, a) <= Starts(msg, b)
  {
    if a < b { StartsGrow(msg, a, b - 1); }
  }

  /** One more run: spaces from `p` to its start, and at most one byte behind it. */
  lemma AnotherRun(msg: seq<int>, rs: seq<Stretch>, p: nat, r: Stretch, q: nat)
    requires p <= r.start < r.end <= q <= |msg| && RunsBefore(msg, rs, p) && IsRun(msg, r)
    requires q == if r.end < |msg| then r.end + 1 else r.end
    requires forall i :: p <= i < r.start ==> msg[i] == SPACE
    requires forall k :: 0 <= k < |rs| ==> rs[k].end < p
    ensures RunsBefore(msg, rs + [r], q)
  {
    var rs' := rs + [r];
    forall i | 0 <= i < q && msg[i] != SPACE ensures exists k :: 0 <= k < |rs'| && rs'[k].start <= i < rs'[k].end {
      if i < p {
        var k :| 0 <= k < |rs| && rs[k].start <= i < rs[k].end;
        assert rs'[k].start <= i < rs'[k].end;
      } else {
        assert rs'[|rs|].start <= i < rs'[|rs|].end;
      }
    }
    forall k | 0 <= k < |rs'| ensures IsRun(msg, rs'[k]) && rs'[k].end <= q {
      if k < |rs| { assert rs'[k] == rs[k]; }
    }
  }

  lemma AnotherStart(msg: seq<int>, p: nat, r: Stretch, q: nat)
    requires p <= r.start < r.end <= q <= |msg| && IsRun(msg, r)
    requires q == if r.end < |msg| then r.end + 1 else r.end
    requires forall i :: p <= i < r.start ==> msg[i] == SPACE
    ensures Starts(msg, q) == Starts(msg, p) + 1
  {
    NoStarts(msg, p, r.start);
    NoStarts(msg, r.start + 1, q);
  }

  lemma NoMoreRuns(msg: seq<int>, rs: seq<Stretch>, p: nat)
    requires p <= |msg| && RunsBefore(msg, rs, p) && forall i :: p <= i < |msg| ==> msg[i] == SPACE
    ensures MaximalRuns(msg, rs)
  {
  }

  // ---------- the buffer ----------

  /**
   One call of `strtok`, continuing at `s`: skips spaces, ends the token with a NUL, and leaves
   the continuation in `save`. A negative `token` is NULL. The terminator is at `n`.
   */
  method Strtok(buf: array<int>, s: nat, ghost n: nat) returns (token: int, ghost end: nat, save: nat)
    requires s <= n < buf.Length && buf[n] == 0 && forall i :: s <= i < n ==> buf[i] != 0
    modifies buf
    ensures s <= save <= n && buf[n] == 0
    ensures token < 0 ==> save == n && forall i :: s <= i < n ==> old(buf[i]) == 32
    ensures token < 0 ==> forall i :: 0 <= i < buf.Length ==> buf[i] == old(buf[i])
    ensures token >= 0 ==> s <= token < end <= save && save == (if end < n then end + 1 else n)
    ensures token >= 0 ==> forall i :: s <= i < token ==> old(buf[i]) == 32
    ensures token >= 0 ==> forall i :: token <= i < end ==> old(buf[i]) != 32
    ensures token >= 0 && end < n ==> old(buf[end]) == 32
    ensures token >= 0 ==> buf[end] == 0 && forall i :: 0 <= i < buf.Length && i != end ==> buf[i] == old(buf[i])
  {
    var p := s;
    end := s;
    while buf[p] == SPACE
      invariant s <= p <= n && forall i :: s <= i < p ==> buf[i] == SPACE
      decreases n - p
    {
      p := p + 1;
    }
    if buf[p] == 0 {
      return -1, p, p;
    }
    var q := p;
    while buf[q] != 0 && buf[q] != SPACE
      invariant p <= q <= n && forall i :: p <= i < q ==> buf[i] != SPACE
      invariant q == p ==> buf[q] != 0 && buf[q] != SPACE
      decreases n - q
    {
      q := q + 1;
    }
    token, end := p, q;
    if buf[q] == 0 {
      save := q;
    } else {
      buf[q] := 0;
      save := q + 1;
    }
  }

  /** A pointer to the start of the run reads the run. */
  ghost predicate Reads(buf: seq<int>, msg: seq<int>, r: Stretch) {
    && r.end <= |msg| < |buf| && buf[r.end] == 0
    && forall i :: r.start <= i < r.end ==> buf[i] == msg[i]
  }

  /** The buffer after `strtok` has come as far as `p` in the message. */
  ghost predicate Scanned(buf: seq<int>, msg: seq<int>, rs: seq<Stretch>, p: nat) {
    && p <= |msg| < |buf| && buf[|msg|] == 0 && RunsBefore(msg, rs, p) && |rs| == Starts(msg, p)
    && (forall k :: 0 <= k < |rs| ==> Reads(buf, msg, rs[k]))
    && (forall i :: p <= i < |msg| ==> buf[i] == msg[i])
    && (p == 0 || p == |msg| || msg[p - 1] == SPACE)
    && (forall k :: 0 <= k < |rs| ==> rs[k].end < p || p == |msg|)
  }

  lemma RunFound(msg: seq<int>, p: nat, r: Stretch)
    requires p <= r.start < r.end <= |msg| && (p == 0 || msg[p - 1] == SPACE)
    requires forall i :: p <= i < r.start ==> msg[i] == SPACE
    requires forall i :: r.start <= i < r.end ==> msg[i] != SPACE
    requires r.end < |msg| ==> msg[r.end] == SPACE
    ensures IsRun(msg, r)
  {
  }

  method NextToken(buf: array<int>, p: nat, ghost msg: seq<int>, ghost rs: seq<Stretch>)
    returns (token: int, save: nat, ghost rs': seq<Stretch>)
    requires Scanned(buf[..], msg, rs, p) && forall i :: 0 <= i < |msg| ==> msg[i] != 0
    modifies buf
    ensures p <= save && Scanned(buf[..], msg, rs', save)
    ensures token < 0 ==> rs' == rs && MaximalRuns(msg, rs) && save == |msg|
    ensures token >= 0 ==> p < save && |rs'| == |rs| + 1 && rs'[..|rs|] == rs && rs'[|rs|].start == token
  {
    hide RunsBefore, Starts, IsRun;
    ghost var was := buf[..];
    ghost var end;
    token, end, save := Strtok(buf, p, |msg|);
    if token < 0 {
      rs' := rs;
      NoMoreRuns(msg, rs, p);
      NoStarts(msg, p, save);
    } else {
      ghost var r := Stretch(token, end);
      rs' := rs + [r];
      RunFound(msg, p, r);
      AnotherRun(msg, rs, p, r, save);
      AnotherStart(msg, p, r, save);
      forall k | 0 <= k < |rs'| ensures Reads(buf[..], msg, rs'[k]) {
        if k < |rs| { assert Reads(was, msg, rs[k]); }
      }
    }
  }

  /**
   `kvs_split_tokens`: the offsets stored read exactly the runs of the message. The code stores
   them without looking at the size of `tokens`; `overrun` is returned where it would write
   behind the end, which it does exactly for a message with more runs than places.
   */
  method SplitTokens(tokens: array<int>, buf: array<int>, ghost msg: seq<int>) returns (count: nat, overrun: bool, ghost runs: seq<Stretch>)
    requires |msg| < buf.Length && buf[..|msg|] == msg && buf[|msg|] == 0
    requires (forall i :: 0 <= i < |msg| ==> msg[i] != 0) && tokens != buf
    modifies tokens, buf
    ensures overrun <==> Starts(msg, |msg|) > tokens.Length
    ensures !overrun ==> count == |runs| == Starts(msg, |msg|) && MaximalRuns(msg, runs)
    ensures !overrun ==> forall k :: 0 <= k < count ==> tokens[k] == runs[k].start
    ensures !overrun ==> forall k :: 0 <= k < count ==> StringAt(buf[..], runs[k].start) == Text(msg, runs[k])
  {
    hide RunsBefore, Starts, IsRun, Reads;
    count, overrun := 0, false;
    NothingYet(buf[..], msg);
    var token, save;
    token, save, runs := NextToken(buf, 0, msg, []);
    while token >= 0
      invariant count <= |runs| && count <= tokens.Length && Scanned(buf[..], msg, runs, save)
      invariant forall k :: 0 <= k < count ==> tokens[k] == runs[k].start
      invariant token < 0 ==> |runs| == count && MaximalRuns(msg, runs) && save == |msg|
      invariant token >= 0 ==> |runs| == count + 1 && runs[count].start == token
      decreases |msg| - save, token >= 0
    {
      StartsGrow(msg, save, |msg|);
      if count == tokens.Length {
        overrun := true;
        return;
      }
      tokens[count] := token;
      count := count + 1;
      token, save, runs := NextToken(buf, save, msg, runs);
    }
    forall k | 0 <= k < count ensures StringAt(buf[..], runs[k].start) == Text(msg, runs[k]) {
      assert IsRun(msg, runs[k]) by { RunAt(msg, runs, |msg|, k); }
      ReadsRun(buf[..], msg, runs[k]);
    }
  }

  lemma NothingYet(buf: seq<int>, msg: seq<int>)
    requires |msg| < |buf| && buf[..|msg|] == msg && buf[|msg|] == 0
    ensures Scanned(buf, msg, [], 0)
  {
    assert forall i :: 0 <= i < |msg| ==> buf[..|msg|][i] == buf[i];
  }

  lemma RunAt(msg: seq<int>, rs: seq<Stretch>, p: nat, k: nat)
    requires p <= |msg| && RunsBefore(msg, rs, p) && k < |rs|
    ensures IsRun(msg, rs[k])
  {
  }

  lemma ReadsRun(buf: seq<int>, msg: seq<int>, r: Stretch)
    requires IsRun(msg, r) && Reads(buf, msg, r) && forall i :: 0 <= i < |msg| ==> msg[i] != 0
    ensures StringAt(buf, r.start) == Text(msg, r)
  {
    ReadsTo(buf, r.start, r.end);
    assert buf[r.start..r.end] == msg[r.start..r.end];
  }

  /** The starts counted are those of the runs. */
  lemma {:induction false} StartsAreRuns(msg: seq<int>, rs: seq<Stretch>, p: nat)
    requires p <= |msg| && RunsBefore(msg, rs, p)
    ensures Starts(msg, p) == |rs|
    decreases |rs|
  {
    if rs == [] {
      NoStarts(msg, 0, p);
    } else {
      var n := |rs| - 1;
      BeforeLastRun(msg, rs, p);
      AfterLastRun(msg, rs, p);
      StartsAreRuns(msg, rs[..n], rs[n].start);
      NoStarts(msg, rs[n].start + 1, p);
    }
  }

  lemma BeforeLastRun(msg: seq<int>, rs: seq<Stretch>, p: nat)
    requires p <= |msg| && RunsBefore(msg, rs, p) && rs != []
    ensures var n := |rs| - 1; rs[n].start <= |msg| && RunsBefore(msg, rs[..n], rs[n].start)
  {
    var n := |rs| - 1;
    var front, r := rs[..n], rs[n];
    assert IsRun(msg, r);
    assert forall k :: 0 <= k < |front| ==> front[k] == rs[k];
    forall i | 0 <= i < r.start && msg[i] != SPACE ensures exists k :: 0 <= k < |front| && front[k].start <= i < front[k].end {
      var k :| 0 <= k < |rs| && rs[k].start <= i < rs[k].end;
      assert front[k].start <= i < front[k].end;
    }
  }

  lemma AfterLastRun(msg: seq<int>, rs: seq<Stretch>, p: nat)
    requires p <= |msg| && RunsBefore(msg, rs, p) && rs != []
    ensures var r := rs[|rs| - 1]; IsRun(msg, r) && r.end <= p && forall i :: r.start < i < p ==> !StartsAt(msg, i)
  {
    var r := rs[|rs| - 1];
    assert IsRun(msg, r);
    forall i | r.start < i < p ensures !StartsAt(msg, i) {
      if i < r.end {
        assert msg[i - 1] != SPACE;
      }
    }
  }

  /** Every message has its list of maximal runs. */
  lemma {:induction false} RunsExist(msg: seq<int>)
    ensures exists rs :: MaximalRuns(msg, rs)
    decreases |msg|
  {
    var k := LastSpace(msg);
    if k < 0 {
      if msg == [] {
        assert MaximalRuns(msg, []);
      } else {
        var rs := [Stretch(0, |msg|)];
        assert IsRun(msg, rs[0]);
        forall i | 0 <= i < |msg| && msg[i] != SPACE ensures exists k :: 0 <= k < |rs| && rs[k].start <= i < rs[k].end {
          assert rs[0].start <= i < rs[0].end;
        }
        assert MaximalRuns(msg, rs);
      }
    } else {
      var front, rest := msg[..k], msg[k + 1..];
      RunsExist(front);
      var rs :| MaximalRuns(front, rs);
      assert msg == front + [SPACE] + rest;
      Extended(front, rest, rs);
      if rest != [] {
        var r := Stretch(k + 1, |msg|);
        assert IsRun(msg, r);
        LastEnds(front, rs);
        AnotherRun(msg, rs, k + 1, r, |msg|);
        assert MaximalRuns(msg, rs + [r]);
      } else {
        assert MaximalRuns(msg, rs);
      }
    }
  }

  function LastSpace(msg: seq<int>): (k: int)
    ensures -1 <= k < |msg| && (k >= 0 ==> msg[k] == SPACE)
    ensures forall i :: k < i < |msg| ==> msg[i] != SPACE
  {
    if msg == [] then -1
    else if msg[|msg| - 1] == SPACE then |msg| - 1
    else LastSpace(msg[..|msg| - 1])
  }

  ghost function Runs(msg: seq<int>): (rs: seq<Stretch>)
    ensures MaximalRuns(msg, rs)
  {
    RunsExist(msg);
    var rs :| MaximalRuns(msg, rs);
    rs
  }

  // ---------- round trip ----------

  /** The runs of a message are determined by it. */
  lemma {:induction false} RunsUnique(msg: seq<int>, a: seq<Stretch>, b: seq<Stretch>)
    requires MaximalRuns(msg, a) && MaximalRuns(msg, b)
    ensures a == b
  {
    Prefixes(msg, a, b);
    Prefixes(msg, b, a);
  }

  lemma {:induction false} Prefixes(msg: seq<int>, a: seq<Stretch>, b: seq<Stretch>)
    requires MaximalRuns(msg, a) && MaximalRuns(msg, b)
    ensures |a| <= |b| && a == b[..|a|]
  {
    forall k | 0 <= k < |a| ensures k < |b| && a[k] == b[k] {
      SameAt(msg, a, b, k);
    }
    if |a| > 0 { SameAt(msg, a, b, |a| - 1); }
  }

  /** Two runs with a common byte are one. */
  lemma Overlap(msg: seq<int>, r: Stretch, s: Stretch, i: nat)
    requires IsRun(msg, r) && IsRun(msg, s) && r.start <= i < r.end && s.start <= i < s.end
    ensures r == s
  {
  }

  lemma {:induction false} SameAt(msg: seq<int>, a: seq<Stretch>, b: seq<Stretch>, k: nat)
    requires MaximalRuns(msg, a) && MaximalRuns(msg, b) && k < |a|
    ensures k < |b| && a[k] == b[k]
    decreases k
  {
    var l := Among(msg, a[k], b);
    if l > k {
      var m := Among(msg, b[k], a);
      SameAt(msg, a, b, m);
    } else if l < k {
      SameAt(msg, a, b, l);
    }
  }

  /** Every run of the message is in the list. */
  lemma Among(msg: seq<int>, r: Stretch, b: seq<Stretch>) returns (l: nat)
    requires IsRun(msg, r) && MaximalRuns(msg, b)
    ensures l < |b| && b[l] == r
  {
    assert msg[r.start] != SPACE;
    l :| l < |b| && b[l].start <= r.start < b[l].end;
    Overlap(msg, r, b[l], r.start);
  }

  predicate IsToken(t: seq<int>) {
    t != [] && forall i :: 0 <= i < |t| ==> t[i] != SPACE && t[i] != 0
  }

  /** The tokens separated by single spaces. */
  function Join(ts: seq<seq<int>>): seq<int> {
    if |ts| == 0 then []
    else if |ts| == 1 then ts[0]
    else Join(ts[..|ts| - 1]) + [SPACE] + ts[|ts| - 1]
  }

  function JoinedRuns(ts: seq<seq<int>>): seq<Stretch> {
    if |ts| == 0 then []
    else if |ts| == 1 then [Stretch(0, |ts[0]|)]
    else
      var n := |Join(ts[..|ts| - 1])|;
      JoinedRuns(ts[..|ts| - 1]) + [Stretch(n + 1, n + 1 + |ts[|ts| - 1]|)]
  }

  /** Runs of a message are runs of the message with a space and more behind it. */
  lemma Extended(msg: seq<int>, rest: seq<int>, rs: seq<Stretch>)
    requires MaximalRuns(msg, rs)
    ensures RunsBefore(msg + [SPACE] + rest, rs, |msg| + 1)
    ensures forall k :: 0 <= k < |rs| ==> Text(msg + [SPACE] + rest, rs[k]) == Text(msg, rs[k])
  {
    var long := msg + [SPACE] + rest;
    forall i | 0 <= i < |msg| ensures long[i] == msg[i] { }
    assert long[|msg|] == SPACE;
    forall k | 0 <= k < |rs| ensures IsRun(long, rs[k]) { assert IsRun(msg, rs[k]); }
    forall i | 0 <= i < |msg| + 1 && long[i] != SPACE ensures exists k :: 0 <= k < |rs| && rs[k].start <= i < rs[k].end {
      assert msg[i] != SPACE;
    }
  }

  lemma {:induction false} JoinMaximal(ts: seq<seq<int>>)
    requires forall k :: 0 <= k < |ts| ==> IsToken(ts[k])
    ensures MaximalRuns(Join(ts), JoinedRuns(ts)) && |JoinedRuns(ts)| == |ts|
    ensures forall k :: 0 <= k < |ts| ==> Text(Join(ts), JoinedRuns(ts)[k]) == ts[k]
  {
    hide IsRun, RunsBefore, Join, JoinedRuns, Text;
    if |ts| <= 1 {
      JoinOne(ts);
    } else {
      var n := |ts| - 1;
      var front := ts[..n];
      JoinMaximal(front);
      assert ts == front + [ts[n]];
      JoinLast(front, ts[n]);
    }
  }

  lemma JoinLast(front: seq<seq<int>>, t: seq<int>)
    requires front != [] && IsToken(t) && MaximalRuns(Join(front), JoinedRuns(front)) && |JoinedRuns(front)| == |front|
    requires forall k :: 0 <= k < |front| ==> Text(Join(front), JoinedRuns(front)[k]) == front[k]
    ensures var ts := front + [t];
      && MaximalRuns(Join(ts), JoinedRuns(ts)) && |JoinedRuns(ts)| == |ts|
      && forall k :: 0 <= k < |ts| ==> Text(Join(ts), JoinedRuns(ts)[k]) == ts[k]
  {
    hide IsRun, RunsBefore, Join, JoinedRuns, Text, IsToken;
    var ts := front + [t];
    assert ts[..|ts| - 1] == front && ts[|ts| - 1] == t;
    JoinStep(ts);
    JoinMore(front, Join(front), JoinedRuns(front), t);
  }

  lemma JoinStep(ts: seq<seq<int>>)
    requires |ts| > 1
    ensures var n := |ts| - 1;
      var m := |Join(ts[..n])|;
      Join(ts) == Join(ts[..n]) + [SPACE] + ts[n] &&
      JoinedRuns(ts) == JoinedRuns(ts[..n]) + [Stretch(m + 1, m + 1 + |ts[n]|)]
  {
  }

  /** One more token behind a joined message. */
  lemma JoinMore(ts: seq<seq<int>>, msg: seq<int>, rs: seq<Stretch>, t: seq<int>)
    requires MaximalRuns(msg, rs) && |rs| == |ts| && IsToken(t)
    requires forall k :: 0 <= k < |ts| ==> Text(msg, rs[k]) == ts[k]
    ensures
      var long, rs', ts' := msg + [SPACE] + t, rs + [Stretch(|msg| + 1, |msg| + 1 + |t|)], ts + [t];
      MaximalRuns(long, rs') && forall k :: 0 <= k < |ts'| ==> Text(long, rs'[k]) == ts'[k]
  {
    hide IsRun, RunsBefore;
    var long, r := msg + [SPACE] + t, Stretch(|msg| + 1, |msg| + 1 + |t|);
    Extended(msg, t, rs);
    LastRun(msg, t);
    LastEnds(msg, rs);
    AnotherRun(long, rs, |msg| + 1, r, |long|);
  }

  lemma JoinOne(ts: seq<seq<int>>)
    requires |ts| <= 1 && forall k :: 0 <= k < |ts| ==> IsToken(ts[k])
    ensures MaximalRuns(Join(ts), JoinedRuns(ts)) && |JoinedRuns(ts)| == |ts|
    ensures forall k :: 0 <= k < |ts| ==> Text(Join(ts), JoinedRuns(ts)[k]) == ts[k]
  {
    if |ts| == 1 {
      var t := ts[0];
      assert IsToken(t);
      var rs := JoinedRuns(ts);
      assert IsRun(t, rs[0]);
      forall i | 0 <= i < |t| && t[i] != SPACE ensures exists k :: 0 <= k < |rs| && rs[k].start <= i < rs[k].end {
        assert rs[0].start <= i < rs[0].end;
      }
    }
  }

  lemma LastRun(msg: seq<int>, t: seq<int>)
    requires IsToken(t)
    ensures var long, r := msg + [SPACE] + t, Stretch(|msg| + 1, |msg| + 1 + |t|);
      IsRun(long, r) && Text(long, r) == t
  {
    var long := msg + [SPACE] + t;
    assert long[|msg|] == SPACE;
    assert forall i :: |msg| + 1 <= i < |long| ==> long[i] == t[i - |msg| - 1];
  }

  lemma LastEnds(msg: seq<int>, rs: seq<Stretch>)
    requires MaximalRuns(msg, rs)
    ensures forall k :: 0 <= k < |rs| ==> rs[k].end < |msg| + 1
  {
  }

  lemma {:induction false} JoinHasNoNul(ts: seq<seq<int>>)
    requires forall k :: 0 <= k < |ts| ==> IsToken(ts[k])
    ensures forall i :: 0 <= i < |Join(ts)| ==> Join(ts)[i] != 0
  {
    if |ts| == 1 {
      assert IsToken(ts[0]);
    } else if |ts| > 1 {
      JoinHasNoNul(ts[..|ts| - 1]);
      assert IsToken(ts[|ts| - 1]);
    }
  }

  /** Joining up to 32 tokens by single spaces and splitting the message gives them back. */
  method SplitJoined(tokens: array<int>, buf: array<int>, ghost ts: seq<seq<int>>) returns (count: nat)
    requires |ts| <= 32 == tokens.Length && tokens != buf
    requires forall k :: 0 <= k < |ts| ==> IsToken(ts[k])
    requires |Join(ts)| < buf.Length && buf[..|Join(ts)|] == Join(ts) && buf[|Join(ts)|] == 0
    modifies tokens, buf
    ensures count == |ts|
    ensures forall k :: 0 <= k < count ==> tokens[k] >= 0 && StringAt(buf[..], tokens[k]) == ts[k]
  {
    hide IsRun, RunsBefore, Join, JoinedRuns, Starts;
    JoinHasNoNul(ts);
    JoinMaximal(ts);
    StartsAreRuns(Join(ts), JoinedRuns(ts), |Join(ts)|);
    ghost var runs;
    var overrun;
    count, overrun, runs := SplitTokens(tokens, buf, Join(ts));
    RunsUnique(Join(ts), runs, JoinedRuns(ts));
  }
}
