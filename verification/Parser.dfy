/** `kvs_parser_protocol` of kvstore.c: from the tokens of a message to an engine's operation. */
module Parser {
  import opened Strings
  import opened Protocol
  import opened Bindings
  import KvStore

  const KVS_CMD_SET := 0
  const KVS_CMD_ERROR := 30

  const COMMANDS: seq<string> := [
    "SET", "GET", "COUNT", "DELETE", "EXIST",
    "RSET", "RGET", "RCOUNT", "RDELETE", "REXIST",
    "BSET", "BGET", "BCOUNT", "BDELETE", "BEXIST",
    "HSET", "HGET", "HCOUNT", "HDELETE", "HEXIST",
    "DSET", "DGET", "DCOUNT", "DDELETE", "DEXIST",
    "ZSET", "ZGET", "ZCOUNT", "ZDELETE", "ZEXIST"]

  predicate IsAscii(s: string) {
    forall i :: 0 <= i < |s| ==> 0 < s[i] as int < 128
  }

  /** The bytes of an ASCII text. */
  function Ascii(s: string): (b: CString)
    requires IsAscii(s)
    ensures |b| == |s| && forall i :: 0 <= i < |s| ==> b[i] == s[i] as int
  {
    seq(|s|, i requires 0 <= i < |s| => s[i] as int)
  }

  lemma SameText(a: string, b: string)
    requires IsAscii(a) && IsAscii(b) && Ascii(a) == Ascii(b)
    ensures a == b
  {
    forall i | 0 <= i < |a| ensures |a| == |b| && a[i] == b[i] {
      assert Ascii(a)[i] == Ascii(b)[i];
    }
  }

  lemma CommandsAscii(i: nat)
    requires i < |COMMANDS|
    ensures IsAscii(COMMANDS[i])
  {
  }

  lemma CommandsDiffer(i: nat, j: nat)
    requires i < j < |COMMANDS|
    ensures COMMANDS[i] != COMMANDS[j]
  {
  }

  /** What a message asks for. */
  datatype Action =
    | Ignore(ret: int)  // returns at once, the message untouched
    | Abort             // a failed `assert`
    | Do(c: Command)

  function RowEngine(row: nat): (e: Engine)
    requires row < 6 && row != 2
  {
    match row
    case 0 => ArrayEngine
    case 1 => RbEngine
    case 3 => HashEngine
    case 4 => DHashEngine
    case _ => SkipEngine
  }

  function ColumnOp(col: nat): Op
    requires col < 5
  {
    match col
    case 0 => Set
    case 1 => Get
    case 2 => Count
    case 3 => Delete
    case _ => Exist
  }

  /** The action of table entry `cmd`; the B-tree commands are empty cases. */
  function Meaning(cmd: nat, key: CharPtr, value: CharPtr, count: nat): Action
    requires cmd <= KVS_CMD_ERROR
  {
    if cmd == KVS_CMD_SET && count != 3 then Abort
    else if cmd == KVS_CMD_ERROR || 10 <= cmd < 15 then Ignore(0)
    else Do(Command(RowEngine(cmd / 5), Request(ColumnOp(cmd % 5), key, value)))
  }

  /** The index of the command word, or the end of the table. */
  ghost function CommandOf(word: CString): (cmd: nat)
    ensures cmd <= KVS_CMD_ERROR
    ensures cmd < KVS_CMD_ERROR ==> IsAscii(COMMANDS[cmd]) && Ascii(COMMANDS[cmd]) == word
    ensures cmd == KVS_CMD_ERROR ==> forall i :: 0 <= i < |COMMANDS| && IsAscii(COMMANDS[i]) ==> Ascii(COMMANDS[i]) != word
  {
    if exists i :: 0 <= i < |COMMANDS| && IsAscii(COMMANDS[i]) && Ascii(COMMANDS[i]) == word
    then var i :| 0 <= i < |COMMANDS| && IsAscii(COMMANDS[i]) && Ascii(COMMANDS[i]) == word; i
    else KVS_CMD_ERROR
  }

  /** No other table entry has the same word. */
  lemma CommandIs(word: CString, i: nat)
    requires i < |COMMANDS| && IsAscii(COMMANDS[i]) && Ascii(COMMANDS[i]) == word
    ensures CommandOf(word) == i
  {
    var j := CommandOf(word);
    SameText(COMMANDS[i], COMMANDS[j]);
    if i < j { CommandsDiffer(i, j); }
    if j < i { CommandsDiffer(j, i); }
  }

  method FindCommand(word: CString) returns (cmd: nat)
    ensures cmd == CommandOf(word)
  {
    cmd := 0;
    while cmd <= 29
      invariant cmd <= 30
      invariant forall i :: 0 <= i < cmd ==> IsAscii(COMMANDS[i]) && Ascii(COMMANDS[i]) != word
    {
      CommandsAscii(cmd);
      StrcmpZero(word, Ascii(COMMANDS[cmd]));
      if Strcmp(word, Ascii(COMMANDS[cmd])) == 0 {
        CommandIs(word, cmd);
        break;
      }
      cmd := cmd + 1;
    }
  }

  ghost function Decode(tokens: seq<CharPtr>, count: nat): Action
    requires |tokens| >= 3
  {
    if tokens[0].Null? || count == 0 then Ignore(KVS_CMD_ERROR)
    else Meaning(CommandOf(tokens[0].s), tokens[1], tokens[2], count)
  }

  datatype Outcome = Replied(reply: Reply) | Returned(ret: int) | Aborted | Hung

  /** The dispatcher: carries out exactly the command the words name, on its own engine. */
  method ParseProtocol(store: KvStore.KvStore, tokens: seq<CharPtr>, count: nat) returns (out: Outcome)
    requires store.Valid() && |tokens| >= 3
    requires Decode(tokens, count).Do? ==> KvStore.Defined(Decode(tokens, count).c)
    modifies store.arr, store.arr.table, store.rb, store.rb.nil, store.rb.nodes, store.hash, store.hash.nodes, store.hash.repr
    modifies store.dhash, store.dhash.table, store.dhash.repr, store.skip, store.skip.list
    ensures store.Valid()
    ensures match Decode(tokens, count)
      case Ignore(ret) => out == Returned(ret) && store.View() == old(store.View())
      case Abort => out == Aborted && store.View() == old(store.View())
      case Do(c) =>
        if Blocks(old(store.View()), c) then out == Hung && store.View() == old(store.View())
        else out == Replied(Answer(old(store.View()), c)) && store.View() == Next(old(store.View()), c)
  {
    hide KvStore.KvStore.Valid, KvStore.KvStore.View, KvStore.Defined, Next, Answer, CommandOf;
    if tokens[0].Null? || count == 0 {
      return Returned(KVS_CMD_ERROR);
    }
    var cmd := FindCommand(tokens[0].s);
    if cmd == KVS_CMD_SET && count != 3 {
      return Aborted;
    }
    if cmd == KVS_CMD_ERROR || 10 <= cmd < 15 {
      return Returned(0);
    }
    var response := store.Execute(Command(RowEngine(cmd / 5), Request(ColumnOp(cmd % 5), tokens[1], tokens[2])));
    out := if response.Blocked? then Hung else Replied(response.reply);
  }

  /** The bytes of an engine's prefix: none, `R`, `H`, `D` and `Z`. */
  function PrefixBytes(e: Engine): CString {
    match e
    case ArrayEngine => []
    case RbEngine => [82]
    case HashEngine => [72]
    case DHashEngine => [68]
    case SkipEngine => [90]
  }

  /** The bytes of `SET`, `GET`, `COUNT`, `DELETE` and `EXIST`. */
  function OpBytes(op: Op): CString {
    match op
    case Set => [83, 69, 84]
    case Get => [71, 69, 84]
    case Count => [67, 79, 85, 78, 84]
    case Delete => [68, 69, 76, 69, 84, 69]
    case Exist => [69, 88, 73, 83, 84]
  }

  function EngineRow(e: Engine): nat {
    match e
    case ArrayEngine => 0
    case RbEngine => 1
    case HashEngine => 3
    case DHashEngine => 4
    case SkipEngine => 5
  }

  function OpColumn(op: Op): nat {
    match op
    case Set => 0
    case Get => 1
    case Count => 2
    case Delete => 3
    case Exist => 4
  }

  /** The bytes of a row's prefix; the third row is that of the B-tree commands. */
  function RowPrefix(row: nat): CString
    requires row < 6
  {
    match row
    case 0 => []
    case 1 => [82]
    case 2 => [66]
    case 3 => [72]
    case 4 => [68]
    case _ => [90]
  }

  /** Entry `cmd` of the table reads `word`. */
  ghost predicate Reads(cmd: nat, word: CString) {
    cmd < |COMMANDS| && IsAscii(COMMANDS[cmd]) && Ascii(COMMANDS[cmd]) == word
  }

  lemma SetWords(row: nat)
    requires row < 6
    ensures Reads(5 * row + 0, RowPrefix(row) + OpBytes(Set))
  {
  }

  lemma GetWords(row: nat)
    requires row < 6
    ensures Reads(5 * row + 1, RowPrefix(row) + OpBytes(Get))
  {
  }

  lemma CountWords(row: nat)
    requires row < 6
    ensures Reads(5 * row + 2, RowPrefix(row) + OpBytes(Count))
  {
  }

  lemma DeleteWords(row: nat)
    requires row < 6
    ensures Reads(5 * row + 3, RowPrefix(row) + OpBytes(Delete))
  {
  }

  lemma ExistWords(row: nat)
    requires row < 6
    ensures Reads(5 * row + 4, RowPrefix(row) + OpBytes(Exist))
  {
  }

  /** The table has, row by row, a prefix before each of the five operations. */
  lemma Spelled(row: nat, op: Op)
    requires row < 6
    ensures Reads(5 * row + OpColumn(op), RowPrefix(row) + OpBytes(op))
  {
    hide Reads;
    match op
    case Set => SetWords(row);
    case Get => GetWords(row);
    case Count => CountWords(row);
    case Delete => DeleteWords(row);
    case Exist => ExistWords(row);
  }

  /** So the entry of a word is known from its bytes. */
  lemma EntryOf(row: nat, op: Op, word: CString)
    requires row < 6
    ensures CommandOf(word) == 5 * row + OpColumn(op) <==> word == RowPrefix(row) + OpBytes(op)
  {
    hide RowPrefix, OpBytes, Ascii, IsAscii, CommandOf;
    Spelled(row, op);
    ReadsWord(5 * row + OpColumn(op), RowPrefix(row) + OpBytes(op), word);
  }

  lemma ReadsWord(cmd: nat, text: CString, word: CString)
    requires Reads(cmd, text)
    ensures CommandOf(word) == cmd <==> word == text
  {
    if word == text {
      CommandIs(word, cmd);
    }
  }

  /** The bytes of the word for operation `op` of engine `e`. */
  function WordOf(e: Engine, op: Op): CString {
    PrefixBytes(e) + OpBytes(op)
  }

  /**
   Exactly the bytes of an engine's prefix and an operation's name ask for that operation of that
   engine, with tokens 1 and 2 as key and value; the array's SET needs three tokens.
   */
  lemma EveryCommandHasItsWord(e: Engine, op: Op, tokens: seq<CharPtr>, count: nat)
    requires |tokens| >= 3
    ensures Decode(tokens, count) == Do(Command(e, Request(op, tokens[1], tokens[2]))) <==>
      count > 0 && tokens[0] == Ptr(WordOf(e, op)) && (e.ArrayEngine? && op.Set? ==> count == 3)
  {
    hide CommandOf, OpBytes;
    if tokens[0].Ptr? {
      EntryOf(EngineRow(e), op, tokens[0].s);
      Placed(e, op);
      MeaningIs(CommandOf(tokens[0].s), tokens[1], tokens[2], count, e, op);
    }
  }

  lemma Placed(e: Engine, op: Op)
    ensures RowPrefix(EngineRow(e)) == PrefixBytes(e)
  {
  }

  /** Which entry means which operation. */
  lemma MeaningIs(cmd: nat, key: CharPtr, value: CharPtr, count: nat, e: Engine, op: Op)
    requires cmd <= KVS_CMD_ERROR
    ensures Meaning(cmd, key, value, count) == Do(Command(e, Request(op, key, value))) <==>
      cmd == 5 * EngineRow(e) + OpColumn(op) && (e.ArrayEngine? && op.Set? ==> count == 3)
  {
  }

  /** Any other word, a B-tree command among them, returns 0; without a word the return code is 30. */
  lemma OtherWords(tokens: seq<CharPtr>, count: nat)
    requires |tokens| >= 3 && forall e, op :: tokens[0] != Ptr(WordOf(e, op))
    ensures Decode(tokens, count) == Ignore(if tokens[0].Null? || count == 0 then 30 else 0)
  {
    hide CommandOf, OpBytes, WordOf;
    if tokens[0].Ptr? {
      var cmd := CommandOf(tokens[0].s);
      forall e, op ensures cmd != 5 * EngineRow(e) + OpColumn(op) {
        EntryOf(EngineRow(e), op, tokens[0].s);
        WordIs(e, op);
        assert tokens[0] != Ptr(WordOf(e, op));
      }
      OtherEntries(cmd, tokens[1], tokens[2], count);
    }
  }

  lemma WordIs(e: Engine, op: Op)
    ensures WordOf(e, op) == RowPrefix(EngineRow(e)) + OpBytes(op)
  {
  }

  lemma OtherEntries(cmd: nat, key: CharPtr, value: CharPtr, count: nat)
    requires cmd <= KVS_CMD_ERROR && forall e, op :: cmd != 5 * EngineRow(e) + OpColumn(op)
    ensures Meaning(cmd, key, value, count) == Ignore(0)
  {
    if cmd < KVS_CMD_ERROR && cmd / 5 != 2 {
      var e, op := EntryMeans(cmd);
    }
  }

  lemma EntryMeans(cmd: nat) returns (e: Engine, op: Op)
    requires cmd < KVS_CMD_ERROR && cmd / 5 != 2
    ensures cmd == 5 * EngineRow(e) + OpColumn(op)
  {
    e, op := RowEngine(cmd / 5), ColumnOp(cmd % 5);
    assert EngineRow(e) == cmd / 5 && OpColumn(op) == cmd % 5;
  }

  /** SET with a number of tokens other than three aborts. */
  lemma ShortSetAborts(tokens: seq<CharPtr>, count: nat)
    requires |tokens| >= 3 && count > 0 && tokens[0] == Ptr([83, 69, 84])
    ensures Decode(tokens, count) == Abort <==> count != 3
  {
    EntryOf(0, Set, tokens[0].s);
  }
}
