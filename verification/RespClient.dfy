// The RESP client over a modelled connection: the bytes the server has sent and
// the client has not read yet, and the bytes the client has sent.

module RespClient {
  import opened ByteStrings
  import opened Wrappers
  import opened Resp
  import opened Selection
  import Decimal

  // ----- SCAN as a function of the stream

  const SCAN: Bytes := [83, 67, 65, 78]
  const MATCH: Bytes := [77, 65, 84, 67, 72]
  const COUNT: Bytes := [67, 79, 85, 78, 84]
  const GET: Bytes := [71, 69, 84]
  const ZERO: Bytes := [48] // "0"

  function ScanArgs(cursor: Bytes, pattern: Bytes, count: int): seq<Bytes> {
    [SCAN, cursor, MATCH, pattern, COUNT, Decimal.FormatInt(count)]
  }

  datatype ScanError = ReadFailed(failure: Failure) | UnexpectedReply

  datatype Scan = Scan(keys: seq<Bytes>, sent: Bytes, error: Option<ScanError>, rest: Bytes)

  /** The strings among the replies. */
  function StringsIn(rs: seq<Reply>): seq<Bytes> {
    if rs == [] then []
    else StringsIn(rs[..|rs| - 1]) + if rs[|rs| - 1].Str? then [rs[|rs| - 1].s] else []
  }

  function Cursor(r: Reply): Bytes {
    if r.Str? then r.s else []
  }

  function Batch(r: Reply): seq<Bytes> {
    if r.Arr? then StringsIn(r.items) else []
  }

  /** A scan from `cursor`: one command and one reply a round, until the cursor
      comes back as zero or something goes wrong. */
  function ScanOf(s: Bytes, cursor: Bytes, pattern: Bytes, count: int): (r: Scan)
    ensures |r.rest| <= |s|
    decreases |s|
  {
    var command, o := CommandBytes(ScanArgs(cursor, pattern, count)), ReadReplyOf(s);
    match o.result
    case Err(e) => Scan([], command, Some(ReadFailed(e)), o.rest)
    case Ok(reply) =>
      if !reply.Arr? || |reply.items| != 2 then Scan([], command, Some(UnexpectedReply), o.rest)
      else
        var next, batch := Cursor(reply.items[0]), Batch(reply.items[1]);
        if next == ZERO then Scan(batch, command, None, o.rest)
        else
          var more := ScanOf(o.rest, next, pattern, count);
          Scan(batch + more.keys, command + more.sent, more.error, more.rest)
  }

  // ----- the client

  class Client {
    var unread: Bytes
    var sent: Bytes

    constructor (stream: Bytes)
      ensures unread == stream && sent == []
    {
      unread, sent := stream, [];
    }

    /** The bytes up to and including the next line feed; at the end of the stream
        everything is consumed and lost. */
    method ReadString() returns (line: Bytes, eof: bool)
      modifies `unread
      ensures var s, k := old(unread), FirstIndex(old(unread), LF);
              && eof == (k == |s|)
              && (eof ==> unread == [])
              && (!eof ==> line == s[..k + 1] && unread == s[k + 1..])
    {
      var k := 0;
      while k < |unread| && unread[k] != LF
        invariant k <= |unread| && FirstIndex(unread, LF) == k + FirstIndex(unread[k..], LF)
      {
        assert unread[k..][1..] == unread[k + 1..];
        k := k + 1;
      }
      if k == |unread| {
        line, eof, unread := unread, true, [];
      } else {
        line, eof, unread := unread[..k + 1], false, unread[k + 1..];
      }
    }

    /** Reads some bytes, at least one and at most `max`, unless the stream ended. */
    method Read(max: nat) returns (chunk: Bytes, eof: bool)
      requires max > 0
      modifies `unread
      ensures eof <==> old(unread) == []
      ensures eof ==> chunk == [] && unread == []
      ensures !eof ==> 1 <= |chunk| <= max && chunk + unread == old(unread)
    {
      if unread == [] {
        return [], true;
      }
      var m: nat :| 1 <= m && m <= max && m <= |unread|;
      chunk, eof, unread := unread[..m], false, unread[m..];
    }

    /** Fills the buffer however the bytes arrive; fails when the stream is short. */
    method ReadFull(buf: array<Byte>) returns (err: bool)
      modifies `unread, buf
      ensures err <==> |old(unread)| < buf.Length
      ensures err ==> unread == []
      ensures !err ==> buf[..] == old(unread)[..buf.Length] && unread == old(unread)[buf.Length..]
    {
      var n := 0;
      ghost var s := unread;
      while n < buf.Length
        invariant n <= buf.Length && n <= |s|
        invariant buf[..n] == s[..n] && unread == s[n..]
        decreases buf.Length - n
      {
        var chunk, eof := Read(buf.Length - n);
        if eof {
          return true;
        }
        assert chunk == s[n..][..|chunk|];
        forall j | 0 <= j < |chunk| {
          buf[n + j] := chunk[j];
        }
        assert s[n..][|chunk|..] == s[n + |chunk|..];
        n := n + |chunk|;
      }
      return false;
    }

    method ReadBulk(n: int) returns (r: Result<Reply, Failure>)
      modifies `unread
      ensures Outcome(r, unread) == ReadBulkOf(old(unread), n)
    {
      if n < 0 {
        return Ok(Nil);
      }
      ghost var s := unread;
      var buf := new Byte[n + 2];
      var err := ReadFull(buf);
      if err {
        return Err(EndOfStream);
      }
      assert buf[..n] == buf[..][..n] == s[..n + 2][..n] == s[..n];
      return Ok(Str(buf[..n]));
    }

    /** Reads the elements of an array one after the other; stops at the first
        failure. */
    method ReadItems(n: nat) returns (r: Result<seq<Reply>, Failure>)
      modifies `unread
      ensures Outcome(r, unread) == ReadItemsOf(old(unread), n)
      decreases |unread|, 1
    {
      hide ReadReplyOf;
      ghost var s := unread;
      var arr := new Reply[n](_ => Nil);
      AfterNone(ReadItemsOf(s, n));
      for i := 0 to n
        invariant |unread| <= |s|
        invariant After(arr[..i], ReadItemsOf(unread, n - i)) == ReadItemsOf(s, n)
      {
        ghost var before := unread;
        var item := ReadReply();
        if item.Err? {
          return Err(item.error);
        }
        arr[i] := item.value;
        AfterOne(arr[..i], arr[i], ReadItemsOf(unread, n - i - 1));
        assert arr[..i + 1] == arr[..i] + [arr[i]];
      }
      assert arr[..n] + [] == arr[..];
      return Ok(arr[..]);
    }

    /** Parses one RESP2 value from the stream. */
    method ReadReply() returns (r: Result<Reply, Failure>)
      modifies `unread
      ensures Outcome(r, unread) == ReadReplyOf(old(unread))
      decreases |unread|, 0
    {
      hide Decimal.ParseInt, FirstIndex, ReadItemsOf, ReadBulkOf;
      var line, eof := ReadString();
      if eof {
        return Err(EndOfStream);
      }
      if |line| < 3 {
        return Err(ShortReply);
      }
      var typ, body := line[0], line[1..|line| - 2];
      if typ == SIMPLE {
        return Ok(Str(body));
      } else if typ == ERROR {
        return Err(ServerError(body));
      } else if typ == INTEGER {
        var i := Decimal.ParseInt(body);
        return if i.Some? then Ok(Int(i.value)) else Err(BadNumber);
      } else if typ == BULK {
        var n := Decimal.ParseInt(body);
        if n.None? {
          return Err(BadNumber);
        }
        r := ReadBulk(n.value);
      } else if typ == ARRAY {
        var n := Decimal.ParseInt(body);
        if n.None? {
          return Err(BadNumber);
        }
        if n.value < 0 {
          return Ok(Nil);
        }
        var items := ReadItems(n.value);
        return if items.Ok? then Ok(Arr(items.value)) else Err(items.error);
      } else {
        return Err(UnknownType);
      }
    }

    /** Writes a command as an array of bulk strings. */
    method Send(args: seq<Bytes>)
      modifies `sent
      ensures sent == old(sent) + CommandBytes(args)
    {
      hide BulkBytes, Line;
      sent := sent + Line(ARRAY, Decimal.FormatInt(|args|));
      for i := 0 to |args|
        invariant sent == old(sent) + (Line(ARRAY, Decimal.FormatInt(|args|)) + BulksBytes(args[..i]))
      {
        assert args[..i + 1][..i] == args[..i];
        SentOneMore(old(sent) + (Line(ARRAY, Decimal.FormatInt(|args|)) + BulksBytes(args[..i])), args[i]);
        sent := sent + Line(BULK, Decimal.FormatInt(|args[i]|)) + args[i] + [CR, LF];
      }
      assert args[..|args|] == args;
    }

    /** Sends a command and reads one reply. */
    method Do(args: seq<Bytes>) returns (r: Result<Reply, Failure>)
      modifies `sent, `unread
      ensures sent == old(sent) + CommandBytes(args)
      ensures Outcome(r, unread) == ReadReplyOf(old(unread))
    {
      Send(args);
      r := ReadReply();
    }

    /** The string value of a key, or None when it is missing or no string. */
    method Get(key: Bytes) returns (value: Option<Bytes>)
      modifies `sent, `unread
      ensures sent == old(sent) + CommandBytes([[71, 69, 84], key])
      ensures var o := ReadReplyOf(old(unread));
              && unread == o.rest
              && value == if o.result.Ok? && o.result.value.Str? then Some(o.result.value.s) else None
    {
      hide ReadReplyOf, CommandBytes;
      var rep := Do([GET, key]);
      if rep.Err? {
        return None;
      }
      return if rep.value.Str? then Some(rep.value.s) else None;
    }

    /** Every key matching a pattern, walking the cursor. */
    method ScanMatch(pattern: Bytes, count: int) returns (keys: seq<Bytes>, error: Option<ScanError>)
      modifies `sent, `unread
      ensures var scan := ScanOf(old(unread), [48], pattern, count);
              keys == scan.keys && error == scan.error && unread == scan.rest && sent == old(sent) + scan.sent
    {
      hide ReadReplyOf, CommandBytes, StringsIn, ScanOf, Continues;
      keys := [];
      var cursor := ZERO;
      ghost var all := ScanOf(unread, ZERO, pattern, count);
      ghost var commands: Bytes := [];
      NothingCollected(all);
      while true
        invariant sent == old(sent) + commands
        invariant Continues(all, keys, commands, ScanOf(unread, cursor, pattern, count))
        decreases |unread|
      {
        Round(all, keys, commands, unread, cursor, pattern, count);
        ReadingShrinks(unread);
        commands := commands + CommandBytes(ScanArgs(cursor, pattern, count));
        var rep := Do([SCAN, cursor, MATCH, pattern, COUNT, Decimal.FormatInt(count)]);
        if rep.Err? {
          return keys, Some(ReadFailed(rep.error));
        }
        if !rep.value.Arr? || |rep.value.items| != 2 {
          return keys, Some(UnexpectedReply);
        }
        var arr := rep.value.items;
        cursor := if arr[0].Str? then arr[0].s else [];
        if arr[1].Arr? {
          keys := Collect(keys, arr[1].items);
        } else {
          NothingIn(keys);
        }
        if cursor == ZERO {
          return keys, None;
        }
      }
    }
  }

  /** The scan `all` is what was collected so far, followed by `more`. */
  predicate Continues(all: Scan, keys: seq<Bytes>, commands: Bytes, more: Scan) {
    all == Scan(keys + more.keys, commands + more.sent, more.error, more.rest)
  }

  lemma NothingCollected(all: Scan)
    ensures Continues(all, [], [], all)
  {
    assert [] + all.keys == all.keys && [] + all.sent == all.sent;
  }

  lemma NothingIn(keys: seq<Bytes>)
    ensures keys + [] == keys
  {
  }

  /** One round of the cursor loop. */
  lemma {:induction false} Round(all: Scan, keys: seq<Bytes>, commands: Bytes, s: Bytes, cursor: Bytes,
                                 pattern: Bytes, count: int)
    requires Continues(all, keys, commands, ScanOf(s, cursor, pattern, count))
    ensures var o, commands' := ReadReplyOf(s), commands + CommandBytes(ScanArgs(cursor, pattern, count));
            if o.result.Err? then all == Scan(keys, commands', Some(ReadFailed(o.result.error)), o.rest)
            else if !o.result.value.Arr? || |o.result.value.items| != 2 then
              all == Scan(keys, commands', Some(UnexpectedReply), o.rest)
            else
              var next, keys' := Cursor(o.result.value.items[0]), keys + Batch(o.result.value.items[1]);
              if next == ZERO then all == Scan(keys', commands', None, o.rest)
              else Continues(all, keys', commands', ScanOf(o.rest, next, pattern, count))
  {
    hide ReadReplyOf, CommandBytes, StringsIn, Cursor, Batch;
    assert keys + [] == keys;
    var o, command := ReadReplyOf(s), CommandBytes(ScanArgs(cursor, pattern, count));
    if o.result.Ok? && o.result.value.Arr? && |o.result.value.items| == 2 {
      var next, batch := Cursor(o.result.value.items[0]), Batch(o.result.value.items[1]);
      if next != ZERO {
        var more := ScanOf(o.rest, next, pattern, count);
        assert keys + (batch + more.keys) == keys + batch + more.keys;
        assert commands + (command + more.sent) == commands + command + more.sent;
      }
    }
  }

  /** Appends the strings of a batch. */
  method Collect(keys: seq<Bytes>, batch: seq<Reply>) returns (r: seq<Bytes>)
    ensures r == keys + StringsIn(batch)
  {
    r := keys;
    for i := 0 to |batch|
      invariant r == keys + StringsIn(batch[..i])
    {
      assert batch[..i + 1][..i] == batch[..i];
      if batch[i].Str? {
        r := r + [batch[i].s];
      }
    }
    assert batch[..|batch|] == batch;
  }

  lemma ReadingShrinks(s: Bytes)
    ensures ReadReplyOf(s).result.Ok? ==> |ReadReplyOf(s).rest| < |s|
  {
  }

  lemma SentOneMore(before: Bytes, arg: Bytes)
    ensures before + BulkBytes(arg) == before + Line(BULK, Decimal.FormatInt(|arg|)) + arg + [CR, LF]
  {
    hide Line;
  }

  lemma AfterNone(o: Outcome<seq<Reply>>)
    ensures After([], o) == o
  {
    if o.result.Ok? {
      assert [] + o.result.value == o.result.value;
    }
  }

  lemma AfterOne(vs: seq<Reply>, v: Reply, o: Outcome<seq<Reply>>)
    ensures After(vs, After([v], o)) == After(vs + [v], o)
  {
    if o.result.Ok? {
      assert vs + ([v] + o.result.value) == vs + [v] + o.result.value;
    }
  }

  // ----- scanning a server that follows the protocol

  /** One page of a scan: the next cursor and the keys. */
  datatype Page = Page(cursor: Bytes, keys: seq<Bytes>)

  function PageValue(p: Page): Value {
    Array([Bulk(p.cursor), Array(Bulks(p.keys))])
  }

  /** The cursor is zero on the last page and on no other. */
  predicate IsScan(pages: seq<Page>) {
    && pages != []
    && forall i :: 0 <= i < |pages| ==>
         (pages[i].cursor == [48] <==> i == |pages| - 1) && |pages[i].cursor| < TWO_63 && LengthsFit(pages[i].keys)
  }

  function PagesBytes(pages: seq<Page>): Bytes {
    if pages == [] then [] else Encode(PageValue(pages[0])) + PagesBytes(pages[1..])
  }

  function KeysOn(pages: seq<Page>): seq<Bytes> {
    if pages == [] then [] else pages[0].keys + KeysOn(pages[1..])
  }

  /** The commands that ask for the pages, each with the cursor of the page before. */
  function Requests(pages: seq<Page>, cursor: Bytes, pattern: Bytes, count: int): Bytes {
    if pages == [] then []
    else CommandBytes(ScanArgs(cursor, pattern, count)) + Requests(pages[1..], pages[0].cursor, pattern, count)
  }

  lemma {:induction false} StringsInStrs(args: seq<Bytes>)
    ensures StringsIn(Strs(args)) == args
  {
    if args != [] {
      var n := |args| - 1;
      StrsSnoc(args[..n], args[n]);
      assert args == args[..n] + [args[n]];
      StringsInStrs(args[..n]);
      assert Strs(args)[..n] == Strs(args[..n]);
    }
  }

  lemma {:induction false} StrsSnoc(args: seq<Bytes>, a: Bytes)
    ensures Strs(args + [a]) == Strs(args) + [Str(a)]
  {
    if args == [] {
      assert args + [a] == [a] && Strs([a]) == [Str(a)] + Strs([]);
    } else {
      assert (args + [a])[1..] == args[1..] + [a];
      StrsSnoc(args[1..], a);
    }
  }

  lemma PageReads(p: Page, rest: Bytes)
    requires |p.cursor| < TWO_63 && LengthsFit(p.keys)
    ensures ReadReplyOf(Encode(PageValue(p)) + rest) == Outcome(Ok(Arr([Str(p.cursor), Arr(Strs(p.keys))])), rest)
  {
    hide ReadReplyOf, Encode;
    BulksRead(p.keys);
    PairReads(Bulk(p.cursor), Array(Bulks(p.keys)));
    ReplyRoundTrip(PageValue(p), rest);
  }

  lemma PairReads(a: Value, b: Value)
    requires Valid(a) && Valid(b) && ErrorIn(a).None? && ErrorIn(b).None?
    ensures Valid(Array([a, b])) && ErrorAmong([a, b]).None? && ToReplies([a, b]) == [ToReply(a), ToReply(b)]
  {
    hide ToReply, ErrorIn;
    var one: seq<Value> := [b];
    var two: seq<Value> := [a, b];
    assert two[1..] == one && one[1..] == [];
    assert AllValid(one[1..]) && ErrorAmong(one[1..]).None?;
    assert AllValid(one) && ErrorAmong(one).None?;
    assert AllValid(two) && ErrorAmong(two).None?;
    assert ToReplies(one) == [ToReply(b)] + ToReplies(one[1..]);
  }

  /** A scan collects the keys of all pages in order, asks for each page with the
      cursor of the page before, and leaves what follows the last page unread. */
  lemma {:induction false} ScanCollectsEveryPage(pages: seq<Page>, cursor: Bytes, pattern: Bytes, count: int,
                                                 rest: Bytes)
    requires IsScan(pages)
    ensures ScanOf(PagesBytes(pages) + rest, cursor, pattern, count)
         == Scan(KeysOn(pages), Requests(pages, cursor, pattern, count), None, rest)
    decreases |pages|
  {
    hide ReadReplyOf, Encode, CommandBytes, Strs, StringsIn;
    var p, tail := pages[0], PagesBytes(pages[1..]) + rest;
    assert PagesBytes(pages) + rest == Encode(PageValue(p)) + tail;
    PageReads(p, tail);
    StringsInStrs(p.keys);
    if |pages| == 1 {
      assert pages[1..] == [] && tail == rest;
      assert KeysOn(pages) == p.keys;
      assert Requests(pages, cursor, pattern, count) == CommandBytes(ScanArgs(cursor, pattern, count));
    } else {
      assert IsScan(pages[1..]) by {
        assert forall i :: 0 <= i < |pages| - 1 ==> pages[1..][i] == pages[i + 1];
      }
      ScanCollectsEveryPage(pages[1..], p.cursor, pattern, count, rest);
    }
  }

  // ----- what a scan asks for

  /** The replies that a byte string holds, read one after the other to its end. */
  function ReadAll(s: Bytes): Option<seq<Reply>>
    decreases |s|
  {
    if s == [] then Some([])
    else
      match ReadReplyOf(s).result
      case Err(_) => None
      case Ok(r) =>
        match ReadAll(ReadReplyOf(s).rest)
        case None => None
        case Some(rs) => Some([r] + rs)
  }

  /** The command `SCAN cursor MATCH pattern COUNT n`, where `n` prints the count. */
  predicate IsScanCommand(r: Reply, cursor: Bytes, pattern: Bytes, count: int) {
    && r.Arr? && |r.items| == 6
    && r.items[0] == Str([83, 67, 65, 78]) && r.items[1] == Str(cursor)
    && r.items[2] == Str([77, 65, 84, 67, 72]) && r.items[3] == Str(pattern)
    && r.items[4] == Str([67, 79, 85, 78, 84])
    && r.items[5].Str? && Decimal.ParseInt(r.items[5].s) == Some(count)
  }

  lemma {:induction false} FormatUintIsShort(n: nat)
    ensures |Decimal.FormatUint(n)| <= n / 10 + 1
  {
    if n >= 10 {
      FormatUintIsShort(n / 10);
    }
  }

  lemma StrsAt(args: seq<Bytes>, i: nat)
    requires i < |args|
    ensures Strs(args)[i] == Str(args[i])
  {
    if i > 0 {
      StrsAt(args[1..], i - 1);
    }
  }

  lemma {:induction false} ScanCommandReads(cursor: Bytes, pattern: Bytes, count: I64, rest: Bytes) returns (r: Reply)
    requires |cursor| < TWO_63 && |pattern| < TWO_63
    ensures IsScanCommand(r, cursor, pattern, count)
    ensures ReadReplyOf(CommandBytes(ScanArgs(cursor, pattern, count)) + rest) == Outcome(Ok(r), rest)
  {
    hide ReadReplyOf, CommandBytes, Strs, Decimal.FormatUint, Decimal.ParseInt;
    var args := ScanArgs(cursor, pattern, count);
    FormatUintIsShort(if count < 0 then -(count as int) else count);
    Decimal.ParseIntOfFormatInt(count);
    CommandReadsBack(args, rest);
    r := Arr(Strs(args));
    StrsAt(args, 0);
    StrsAt(args, 1);
    StrsAt(args, 2);
    StrsAt(args, 3);
    StrsAt(args, 4);
    StrsAt(args, 5);
  }

  lemma ReadAllCons(s: Bytes, r: Reply, rest: Bytes)
    requires s != [] && ReadReplyOf(s) == Outcome(Ok(r), rest) && ReadAll(rest).Some?
    ensures ReadAll(s) == Some([r] + ReadAll(rest).value)
  {
    hide ReadReplyOf;
  }

  lemma CommandNotEmpty(args: seq<Bytes>)
    ensures CommandBytes(args) != []
  {
  }

  lemma {:induction false} RequestsRead(pages: seq<Page>, cursor: Bytes, pattern: Bytes, count: I64)
    requires |cursor| < TWO_63 && |pattern| < TWO_63
    requires forall i :: 0 <= i < |pages| ==> |pages[i].cursor| < TWO_63
    ensures var rs := ReadAll(Requests(pages, cursor, pattern, count));
            && rs.Some? && |rs.value| == |pages|
            && forall i :: 0 <= i < |pages| ==>
                 IsScanCommand(rs.value[i], if i == 0 then cursor else pages[i - 1].cursor, pattern, count)
    decreases |pages|
  {
    hide ReadReplyOf, CommandBytes, IsScanCommand, ScanArgs, ReadAll;
    if pages == [] {
      NothingToRead();
    } else {
      var rest := Requests(pages[1..], pages[0].cursor, pattern, count);
      var r := ScanCommandReads(cursor, pattern, count, rest);
      RequestsRead(pages[1..], pages[0].cursor, pattern, count);
      CommandNotEmpty(ScanArgs(cursor, pattern, count));
      ReadAllCons(CommandBytes(ScanArgs(cursor, pattern, count)) + rest, r, rest);
      var rs := ReadAll(rest).value;
      forall i | 0 <= i < |pages|
        ensures IsScanCommand(([r] + rs)[i], if i == 0 then cursor else pages[i - 1].cursor, pattern, count)
      {
        if i > 0 {
          assert ([r] + rs)[i] == rs[i - 1] && pages[1..][i - 1] == pages[i];
          assert i > 1 ==> pages[1..][i - 2] == pages[i - 1];
        }
      }
    }
  }

  lemma NothingToRead()
    ensures ReadAll([]) == Some([])
  {
  }

  /** The bytes that a scan sends read back, command by command, as scans of the pattern:
      the first from cursor "0", every other from the cursor of the page before. */
  lemma {:induction false} ScanAsks(pages: seq<Page>, pattern: Bytes, count: I64, rest: Bytes)
    requires IsScan(pages) && |pattern| < TWO_63
    ensures var asked := ReadAll(ScanOf(PagesBytes(pages) + rest, [48], pattern, count).sent);
            && asked.Some? && |asked.value| == |pages|
            && forall i :: 0 <= i < |pages| ==>
                 IsScanCommand(asked.value[i], if i == 0 then [48] else pages[i - 1].cursor, pattern, count)
  {
    hide ScanOf, PagesBytes, ReadAll, Requests, KeysOn, IsScanCommand;
    ScanCollectsEveryPage(pages, [48], pattern, count, rest);
    RequestsRead(pages, [48], pattern, count);
  }

  /** The command that `Get` sends. */
  lemma GetAsks(key: Bytes)
    requires |key| < TWO_63
    ensures ReadReplyOf(CommandBytes([[71, 69, 84], key])) == Outcome(Ok(Arr([Str([71, 69, 84]), Str(key)])), [])
  {
    hide ReadReplyOf, CommandBytes;
    var args: seq<Bytes> := [[71, 69, 84], key];
    CommandReadsBack(args, []);
    assert CommandBytes(args) + [] == CommandBytes(args);
    StrsAt(args, 0);
    StrsAt(args, 1);
    assert Strs(args) == [Str(args[0]), Str(key)];
  }

  // ----- scans that fail

  lemma {:induction false} StringsAre(rs: seq<Reply>) returns (at: seq<nat>)
    ensures Picked(rs, at, Strs(StringsIn(rs)))
    ensures forall j :: 0 <= j < |rs| ==> (j in at <==> rs[j].Str?)
  {
    hide Picked, Strs;
    at := [];
    if rs == [] {
      PickedNone<Reply>();
      NoStrings();
    } else {
      var n := |rs| - 1;
      var front, x := rs[..n], rs[n];
      at := StringsAre(front);
      assert rs == front + [x];
      PickedSnoc(front, at, Strs(StringsIn(front)), x);
      if x.Str? {
        at := at + [n];
        StrsSnoc(StringsIn(front), x.s);
      } else {
        assert StringsIn(front) + [] == StringsIn(front);
      }
    }
  }

  lemma NoStrings()
    ensures Strs([]) == []
  {
  }

  /** The reply to a scan: a pair of a cursor and a batch.  Another reply ends the scan
      with an error, and so does a failed read; a cursor that is no string counts as the
      empty one, and elements of the batch that are no strings are skipped. */
  lemma {:induction false} ScanStep(s: Bytes, cursor: Bytes, pattern: Bytes, count: int)
    ensures var o, scan := ReadReplyOf(s), ScanOf(s, cursor, pattern, count);
            match o.result
            case Err(e) => scan.keys == [] && scan.error == Some(ReadFailed(e)) && scan.rest == o.rest
            case Ok(Arr(items)) =>
              if |items| != 2 then scan.keys == [] && scan.error == Some(UnexpectedReply) && scan.rest == o.rest
              else
                var next := if items[0].Str? then items[0].s else [];
                var keys := if items[1].Arr? then StringsIn(items[1].items) else [];
                if next == [48] then scan.keys == keys && scan.error == None && scan.rest == o.rest
                else
                  var more := ScanOf(o.rest, next, pattern, count);
                  scan.keys == keys + more.keys && scan.error == more.error && scan.rest == more.rest
            case Ok(_) => scan.keys == [] && scan.error == Some(UnexpectedReply) && scan.rest == o.rest
  {
    hide ReadReplyOf, CommandBytes, StringsIn;
  }
}
