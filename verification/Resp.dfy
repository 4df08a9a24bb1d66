// RESP2 values (Redis serialization protocol specification): how they are written,
// what the client's reader makes of a byte stream, and that the two agree.

module Resp {
  import opened ByteStrings
  import opened Wrappers
  import Decimal

  const CR: Byte := 13
  const LF: Byte := 10
  const SIMPLE: Byte := 43  // '+'
  const ERROR: Byte := 45   // '-'
  const INTEGER: Byte := 58 // ':'
  const BULK: Byte := 36    // '$'
  const ARRAY: Byte := 42   // '*'

  // ----- values and their encoding

  datatype Value =
    | Simple(text: Bytes)
    | Error(msg: Bytes)
    | Integer(i: I64)
    | Bulk(data: Bytes)
    | NullBulk
    | Array(items: seq<Value>)
    | NullArray

  function Line(typ: Byte, body: Bytes): Bytes {
    [typ] + body + [CR, LF]
  }

  function BulkBytes(data: Bytes): Bytes {
    Line(BULK, Decimal.FormatInt(|data|)) + data + [CR, LF]
  }

  function Encode(v: Value): Bytes
    decreases v, 1
  {
    match v
    case Simple(text) => Line(SIMPLE, text)
    case Error(msg) => Line(ERROR, msg)
    case Integer(i) => Line(INTEGER, Decimal.FormatInt(i))
    case Bulk(data) => BulkBytes(data)
    case NullBulk => Line(BULK, Decimal.FormatInt(-1))
    case Array(items) => Line(ARRAY, Decimal.FormatInt(|items|)) + EncodeAll(items)
    case NullArray => Line(ARRAY, Decimal.FormatInt(-1))
  }

  function EncodeAll(vs: seq<Value>): Bytes
    decreases vs, 0
  {
    if vs == [] then [] else Encode(vs[0]) + EncodeAll(vs[1..])
  }

  predicate OneLine(s: Bytes) {
    CR !in s && LF !in s
  }

  /** Simple strings and errors stay on one line, and lengths fit an int. */
  predicate Valid(v: Value)
    decreases v, 1
  {
    match v
    case Simple(text) => OneLine(text)
    case Error(msg) => OneLine(msg)
    case Bulk(data) => |data| < TWO_63
    case Array(items) => |items| < TWO_63 && AllValid(items)
    case _ => true
  }

  predicate AllValid(vs: seq<Value>)
    decreases vs, 0
  {
    vs == [] || (Valid(vs[0]) && AllValid(vs[1..]))
  }

  // ----- the reader

  /** What the client hands to its callers. */
  datatype Reply = Str(s: Bytes) | Int(i: I64) | Arr(items: seq<Reply>) | Nil

  datatype Failure = EndOfStream | ShortReply | ServerError(msg: Bytes) | BadNumber | UnknownType

  datatype Outcome<T> = Outcome(result: Result<T, Failure>, rest: Bytes)

  function ReadReplyOf(s: Bytes): (o: Outcome<Reply>)
    ensures |o.rest| <= |s|
    ensures o.result.Ok? ==> |o.rest| < |s|
    decreases |s|, 0
  {
    var k := FirstIndex(s, LF);
    if k == |s| then Outcome(Err(EndOfStream), [])
    else
      var line, rest := s[..k + 1], s[k + 1..];
      if |line| < 3 then Outcome(Err(ShortReply), rest)
      else
        var typ, body := line[0], line[1..|line| - 2];
        if typ == SIMPLE then Outcome(Ok(Str(body)), rest)
        else if typ == ERROR then Outcome(Err(ServerError(body)), rest)
        else if typ == INTEGER then
          match Decimal.ParseInt(body)
          case None => Outcome(Err(BadNumber), rest)
          case Some(i) => Outcome(Ok(Int(i)), rest)
        else if typ == BULK then
          match Decimal.ParseInt(body)
          case None => Outcome(Err(BadNumber), rest)
          case Some(n) => ReadBulkOf(rest, n)
        else if typ == ARRAY then
          match Decimal.ParseInt(body)
          case None => Outcome(Err(BadNumber), rest)
          case Some(n) =>
            if n < 0 then Outcome(Ok(Nil), rest)
            else
              var o := ReadItemsOf(rest, n);
              match o.result
              case Err(e) => Outcome(Err(e), o.rest)
              case Ok(items) => Outcome(Ok(Arr(items)), o.rest)
        else Outcome(Err(UnknownType), rest)
  }

  /** The data of a bulk string of length `n` and its line ending. */
  function ReadBulkOf(s: Bytes, n: int): (o: Outcome<Reply>)
    ensures |o.rest| <= |s|
  {
    if n < 0 then Outcome(Ok(Nil), s)
    else if |s| < n + 2 then Outcome(Err(EndOfStream), [])
    else Outcome(Ok(Str(s[..n])), s[n + 2..])
  }

  function ReadItemsOf(s: Bytes, n: nat): (o: Outcome<seq<Reply>>)
    ensures |o.rest| <= |s|
    decreases |s|, 1 + n
  {
    if n == 0 then Outcome(Ok([]), s)
    else
      var first := ReadReplyOf(s);
      match first.result
      case Err(e) => Outcome(Err(e), first.rest)
      case Ok(v) => After([v], ReadItemsOf(first.rest, n - 1))
  }

  /** An outcome with `vs` in front of its items. */
  function After(vs: seq<Reply>, o: Outcome<seq<Reply>>): Outcome<seq<Reply>> {
    match o.result
    case Err(_) => o
    case Ok(items) => Outcome(Ok(vs + items), o.rest)
  }

  // ----- the protocol, in bytes

  /** Every kind of value starts with its own byte and every line ends with CR and LF. */
  lemma EncodingIs(text: Bytes, i: I64, items: seq<Value>)
    ensures Encode(Simple(text)) == [43] + text + [13, 10]
    ensures Encode(Error(text)) == [45] + text + [13, 10]
    ensures Encode(Integer(i)) == [58] + Decimal.FormatInt(i) + [13, 10]
    ensures Encode(Bulk(text)) == [36] + Decimal.FormatInt(|text|) + [13, 10] + text + [13, 10]
    ensures Encode(Array(items)) == [42] + Decimal.FormatInt(|items|) + [13, 10] + EncodeAll(items)
  {
    hide EncodeAll, Decimal.FormatInt;
  }

  lemma NullsAre()
    ensures Encode(NullBulk) == [36, 45, 49, 13, 10] && Encode(NullArray) == [42, 45, 49, 13, 10]
  {
    Decimal.NoLeadingZero(1);
    assert Decimal.FormatInt(-1) == [45, 49];
  }

  /** The values of an array follow each other. */
  lemma EncodingsFollow(v: Value, vs: seq<Value>)
    ensures EncodeAll([]) == [] && EncodeAll([v] + vs) == Encode(v) + EncodeAll(vs)
  {
    assert ([v] + vs)[1..] == vs;
  }

  /** What the reader makes of any stream: of one without a line feed, and of a line, cut
      before its line feed, and what follows it.  The byte before the line feed is
      dropped whatever it is. */
  lemma {:induction false} LineIsRead(line: Bytes, rest: Bytes)
    requires 10 !in line
    ensures ReadReplyOf(line) == Outcome(Err(EndOfStream), [])
    ensures var o := ReadReplyOf(line + [10] + rest);
            if |line| < 2 then o == Outcome(Err(ShortReply), rest)
            else
              var typ, body := line[0], line[1..|line| - 1];
              var n := Decimal.ParseInt(body);
              if typ == 43 then o == Outcome(Ok(Str(body)), rest)
              else if typ == 45 then o == Outcome(Err(ServerError(body)), rest)
              else if typ != 58 && typ != 36 && typ != 42 then o == Outcome(Err(UnknownType), rest)
              else if n == None then o == Outcome(Err(BadNumber), rest)
              else if typ == 58 then o == Outcome(Ok(Int(n.value)), rest)
              else if n.value < 0 then o == Outcome(Ok(Nil), rest)
              else if typ == 36 then
                if |rest| < n.value + 2 then o == Outcome(Err(EndOfStream), [])
                else o == Outcome(Ok(Str(rest[..n.value])), rest[n.value + 2..])
              else
                var items := ReadItemsOf(rest, n.value);
                o.rest == items.rest
                && o.result == if items.result.Ok? then Ok(Arr(items.result.value)) else Err(items.result.error)
  {
    hide Decimal.ParseInt, FirstIndex, ReadItemsOf;
    var s := line + [10] + rest;
    FirstIndexIs(line, LF, rest);
    assert s[..|line| + 1] == line + [10] && s[|line| + 1..] == rest;
    if |line| >= 2 {
      assert s[..|line| + 1][1..|line| - 1 + 0] == line[1..|line| - 1];
    }
    NoLineFeed(line);
  }

  lemma {:induction false} NoLineFeed(s: Bytes)
    requires 10 !in s
    ensures FirstIndex(s, LF) == |s|
  {
    assert FirstIndex(s, LF) < |s| ==> s[FirstIndex(s, LF)] == LF;
  }

  // ----- what the reader should find

  function ToReply(v: Value): Reply
    requires ErrorIn(v).None?
    decreases v, 1
  {
    match v
    case Simple(text) => Str(text)
    case Integer(i) => Int(i)
    case Bulk(data) => Str(data)
    case Array(items) => Arr(ToReplies(items))
    case _ => Nil
  }

  function ToReplies(vs: seq<Value>): seq<Reply>
    requires ErrorAmong(vs).None?
    decreases vs, 0
  {
    if vs == [] then [] else [ToReply(vs[0])] + ToReplies(vs[1..])
  }

  /** The first error in a value, in reading order. */
  function ErrorIn(v: Value): Option<Bytes>
    decreases v, 1
  {
    match v
    case Error(msg) => Some(msg)
    case Array(items) => ErrorAmong(items)
    case _ => None
  }

  function ErrorAmong(vs: seq<Value>): Option<Bytes>
    decreases vs, 0
  {
    if vs == [] then None
    else if ErrorIn(vs[0]).Some? then ErrorIn(vs[0])
    else ErrorAmong(vs[1..])
  }

  /** The bytes of a value behind its first error. */
  function BehindError(v: Value): Bytes
    decreases v, 1
  {
    match v
    case Array(items) => BehindErrorAmong(items)
    case _ => []
  }

  function BehindErrorAmong(vs: seq<Value>): Bytes
    decreases vs, 0
  {
    if vs == [] then []
    else if ErrorIn(vs[0]).Some? then BehindError(vs[0]) + EncodeAll(vs[1..])
    else BehindErrorAmong(vs[1..])
  }

  /** Nothing of the value follows its first error. */
  predicate ErrorComesLast(v: Value)
    decreases v, 1
  {
    match v
    case Array(items) => ErrorComesLastAmong(items)
    case _ => true
  }

  predicate ErrorComesLastAmong(vs: seq<Value>)
    decreases vs, 0
  {
    if vs == [] then true
    else if ErrorIn(vs[0]).Some? then |vs| == 1 && ErrorComesLast(vs[0])
    else ErrorComesLastAmong(vs[1..])
  }

  // ----- the round trip

  /** Reading a line gives its type and body back. */
  lemma LineSplits(typ: Byte, body: Bytes, rest: Bytes)
    requires typ != LF && LF !in body
    ensures var s, k := Line(typ, body) + rest, |body| + 2;
            FirstIndex(s, LF) == k && k < |s| && s[0] == typ && s[1..k - 1] == body && s[k + 1..] == rest
            && s[..k + 1][0] == typ && s[..k + 1][1..k - 1] == body
  {
    var front := [typ] + body + [CR];
    var s := Line(typ, body) + rest;
    assert s == front + [LF] + rest;
    FirstIndexIs(front, LF, rest);
  }

  lemma FormatIntHasNoLineFeed(i: int)
    ensures LF !in Decimal.FormatInt(i)
  {
    Decimal.FormatIntBytes(i);
  }

  lemma BulkRoundTrip(data: Bytes, rest: Bytes)
    requires |data| < TWO_63
    ensures ReadReplyOf(BulkBytes(data) + rest) == Outcome(Ok(Str(data)), rest)
  {
    hide Decimal.FormatInt, Decimal.ParseInt, FirstIndex;
    var header := Decimal.FormatInt(|data|);
    var tail := data + [CR, LF] + rest;
    FormatIntHasNoLineFeed(|data|);
    Decimal.ParseIntOfFormatInt(|data|);
    LineSplits(BULK, header, tail);
    assert BulkBytes(data) + rest == Line(BULK, header) + tail;
    assert tail[..|data|] == data && tail[|data| + 2..] == rest;
  }

  lemma ArrayReads(n: int, tail: Bytes)
    requires -1 <= n < TWO_63
    ensures var o := ReadReplyOf(Line(ARRAY, Decimal.FormatInt(n)) + tail);
            if n < 0 then o == Outcome(Ok(Nil), tail)
            else var os := ReadItemsOf(tail, n);
                 o == if os.result.Err? then Outcome(Err(os.result.error), os.rest)
                      else Outcome(Ok(Arr(os.result.value)), os.rest)
  {
    hide Decimal.FormatInt, Decimal.ParseInt, FirstIndex, ReadItemsOf;
    FormatIntHasNoLineFeed(n);
    Decimal.ParseIntOfFormatInt(n);
    LineSplits(ARRAY, Decimal.FormatInt(n), tail);
  }

  lemma ScalarRoundTrip(v: Value, rest: Bytes)
    requires Valid(v) && !v.Array? && !v.Bulk?
    ensures v.Error? ==> ReadReplyOf(Encode(v) + rest) == Outcome(Err(ServerError(v.msg)), rest)
    ensures !v.Error? ==> ReadReplyOf(Encode(v) + rest) == Outcome(Ok(ToReply(v)), rest)
  {
    hide Decimal.FormatInt, Decimal.ParseInt, FirstIndex;
    match v
    case Simple(text) =>
      LineSplits(SIMPLE, text, rest);
    case Error(msg) =>
      LineSplits(ERROR, msg, rest);
    case Integer(i) =>
      FormatIntHasNoLineFeed(i);
      Decimal.ParseIntOfFormatInt(i);
      LineSplits(INTEGER, Decimal.FormatInt(i), rest);
    case NullBulk =>
      FormatIntHasNoLineFeed(-1);
      Decimal.ParseIntOfFormatInt(-1);
      LineSplits(BULK, Decimal.FormatInt(-1), rest);
    case NullArray =>
      ArrayReads(-1, rest);
  }

  /** Reading any value, however nested and with any bytes in its bulk strings: an
      error-free value comes back and exactly the following bytes stay unread; a
      value with errors gives its first error and leaves what is behind it. */
  lemma {:induction false} ReplyRoundTrip(v: Value, rest: Bytes)
    requires Valid(v)
    ensures ReadReplyOf(Encode(v) + rest)
         == if ErrorIn(v).None? then Outcome(Ok(ToReply(v)), rest)
            else Outcome(Err(ServerError(ErrorIn(v).value)), BehindError(v) + rest)
    decreases v, 1
  {
    hide ReadReplyOf;
    match v
    case Bulk(data) =>
      BulkRoundTrip(data, rest);
    case Array(items) =>
      var header := Line(ARRAY, Decimal.FormatInt(|items|));
      assert Encode(v) + rest == header + (EncodeAll(items) + rest);
      ArrayReads(|items|, EncodeAll(items) + rest);
      ItemsRoundTrip(items, rest);
    case Error(_) =>
      ScalarRoundTrip(v, rest);
      assert BehindError(v) + rest == rest;
    case _ =>
      ScalarRoundTrip(v, rest);
  }

  lemma {:induction false} ItemsRoundTrip(vs: seq<Value>, rest: Bytes)
    requires AllValid(vs)
    ensures ReadItemsOf(EncodeAll(vs) + rest, |vs|)
         == if ErrorAmong(vs).None? then Outcome(Ok(ToReplies(vs)), rest)
            else Outcome(Err(ServerError(ErrorAmong(vs).value)), BehindErrorAmong(vs) + rest)
    decreases vs, 0
  {
    hide ReadReplyOf, Encode, ErrorIn, BehindError, ToReply, Valid;
    if vs == [] {
      assert EncodeAll(vs) + rest == rest;
    } else {
      var tail := EncodeAll(vs[1..]) + rest;
      assert EncodeAll(vs) + rest == Encode(vs[0]) + tail;
      ReplyRoundTrip(vs[0], tail);
      if ErrorIn(vs[0]).Some? {
        assert BehindError(vs[0]) + tail == BehindErrorAmong(vs) + rest;
      } else {
        ItemsRoundTrip(vs[1..], rest);
      }
    }
  }

  // ----- replies that are cut off

  predicate ProperPrefix(p: Bytes, s: Bytes) {
    |p| < |s| && s[..|p|] == p
  }

  lemma CutLine(p: Bytes, typ: Byte, body: Bytes)
    requires ProperPrefix(p, Line(typ, body)) && typ != LF && LF !in body
    ensures LF !in p
  {
    var l := Line(typ, body);
    assert forall i :: 0 <= i < |p| ==> p[i] == l[i];
    assert forall i :: 0 <= i < |l| - 1 ==> l[i] != LF;
  }

  /** A prefix is cut inside the first part or leaves a prefix of the second. */
  lemma CutInTwo(p: Bytes, a: Bytes, b: Bytes)
    requires ProperPrefix(p, a + b)
    ensures |p| < |a| ==> ProperPrefix(p, a)
    ensures |p| >= |a| ==> p == a + p[|a|..] && ProperPrefix(p[|a|..], b)
  {
    if |p| < |a| {
      assert (a + b)[..|p|] == a[..|p|];
    } else {
      assert (a + b)[..|p|] == a + b[..|p| - |a|];
    }
  }

  lemma {:induction false} CutArray(p: Bytes, items: seq<Value>)
    requires |items| < TWO_63 && AllValid(items) && ErrorAmong(items).None?
    requires ProperPrefix(p, Encode(Array(items)))
    ensures ReadReplyOf(p) == Outcome(Err(EndOfStream), [])
    decreases items, 1
  {
    hide ReadReplyOf, EncodeAll, ErrorAmong, AllValid, Line, ProperPrefix;
    var header := Decimal.FormatInt(|items|);
    FormatIntHasNoLineFeed(|items|);
    CutInTwo(p, Line(ARRAY, header), EncodeAll(items));
    if |p| < |Line(ARRAY, header)| {
      CutLine(p, ARRAY, header);
      LineIsRead(p, []);
    } else {
      var tail := p[|Line(ARRAY, header)|..];
      CutItems(tail, items);
      ArrayReads(|items|, tail);
    }
  }

  lemma {:induction false} CutItems(p: Bytes, items: seq<Value>)
    requires AllValid(items) && ErrorAmong(items).None? && ProperPrefix(p, EncodeAll(items))
    ensures ReadItemsOf(p, |items|) == Outcome(Err(EndOfStream), [])
    decreases items, 0
  {
    hide ReadReplyOf, Encode, ToReply, Valid, ErrorIn, ProperPrefix;
    if items == [] {
      NoProperPrefix(p);
      assert false;
    }
    var v, vs := items[0], items[1..];
    CutInTwo(p, Encode(v), EncodeAll(vs));
    if |p| < |Encode(v)| {
      CutReplyFails(v, p);
    } else {
      var tail := p[|Encode(v)|..];
      ReplyRoundTrip(v, tail);
      CutItems(tail, vs);
    }
  }

  lemma NoProperPrefix(p: Bytes)
    ensures !ProperPrefix(p, [])
  {
  }

  lemma CutBulk(p: Bytes, data: Bytes)
    requires |data| < TWO_63 && ProperPrefix(p, BulkBytes(data))
    ensures ReadReplyOf(p) == Outcome(Err(EndOfStream), [])
  {
    hide ReadReplyOf, Decimal.FormatInt, Decimal.ParseInt;
    var header := Decimal.FormatInt(|data|);
    var l := Line(BULK, header);
    FormatIntHasNoLineFeed(|data|);
    Decimal.ParseIntOfFormatInt(|data|);
    assert BulkBytes(data) == l + (data + [CR, LF]);
    CutInTwo(p, l, data + [CR, LF]);
    if |p| < |l| {
      CutLine(p, BULK, header);
      LineIsRead(p, []);
    } else {
      var front := [BULK] + header + [CR];
      assert p == front + [10] + p[|l|..];
      assert front[1..|front| - 1] == header;
      LineIsRead(front, p[|l|..]);
    }
  }

  /** A reply that is cut off anywhere, in a line, in a bulk string or between the elements
      of an array, is never taken for a reply: the reader reports the end of the stream,
      with everything consumed. */
  lemma {:induction false} CutReplyFails(v: Value, p: Bytes)
    requires Valid(v) && ErrorIn(v).None? && ProperPrefix(p, Encode(v))
    ensures ReadReplyOf(p) == Outcome(Err(EndOfStream), [])
    decreases v, 0
  {
    hide ReadReplyOf, Line, ProperPrefix, BulkBytes, EncodeAll, AllValid;
    match v
    case Bulk(data) => CutBulk(p, data);
    case Array(items) => CutArray(p, items);
    case Simple(text) =>
      CutLine(p, SIMPLE, text);
      LineIsRead(p, []);
    case Integer(i) =>
      FormatIntHasNoLineFeed(i);
      CutLine(p, INTEGER, Decimal.FormatInt(i));
      LineIsRead(p, []);
    case NullBulk =>
      FormatIntHasNoLineFeed(-1);
      CutLine(p, BULK, Decimal.FormatInt(-1));
      LineIsRead(p, []);
    case NullArray =>
      FormatIntHasNoLineFeed(-1);
      CutLine(p, ARRAY, Decimal.FormatInt(-1));
      LineIsRead(p, []);
    case _ =>
  }

  lemma {:induction false} NothingBehindIffLast(v: Value)
    ensures BehindError(v) == [] <==> ErrorComesLast(v)
    decreases v, 1
  {
    if v.Array? {
      NothingBehindIffLastAmong(v.items);
    }
  }

  lemma {:induction false} NothingBehindIffLastAmong(vs: seq<Value>)
    ensures BehindErrorAmong(vs) == [] <==> ErrorComesLastAmong(vs)
    decreases vs, 0
  {
    if vs != [] {
      NothingBehindIffLast(vs[0]);
      NothingBehindIffLastAmong(vs[1..]);
      if |vs| > 1 {
        EncodeNotEmpty(vs[1]);
        assert EncodeAll(vs[1..]) == Encode(vs[1]) + EncodeAll(vs[2..]);
      }
    }
  }

  lemma EncodeNotEmpty(v: Value)
    ensures Encode(v) != []
  {
  }

  /** The connection stays in step with the server, with exactly the value consumed,
      if and only if nothing in the value follows its first error.  An error at the
      top level is such a value; an array with an error before its last element is
      not, because the reader stops there. */
  lemma InStepIffErrorComesLast(v: Value, rest: Bytes)
    requires Valid(v)
    ensures ReadReplyOf(Encode(v) + rest).rest == rest <==> ErrorIn(v).None? || ErrorComesLast(v)
  {
    hide ReadReplyOf, Encode;
    ReplyRoundTrip(v, rest);
    NothingBehindIffLast(v);
    if ErrorIn(v).Some? {
      assert |BehindError(v) + rest| == |BehindError(v)| + |rest|;
    }
  }

  /** The connection does get out of step: after an array whose first element is an
      error, the next reply that is read is the array's second element. */
  lemma EarlyErrorLeavesTheRest(msg: Bytes, i: I64, rest: Bytes)
    requires OneLine(msg)
    ensures var v := Array([Error(msg), Integer(i)]);
            var o := ReadReplyOf(Encode(v) + rest);
            && Valid(v) && o.result == Err(ServerError(msg)) && o.rest == Encode(Integer(i)) + rest
            && ReadReplyOf(o.rest) == Outcome(Ok(Int(i)), rest)
  {
    var x, y := Error(msg), Integer(i);
    PairParts(x, y);
    hide ReadReplyOf, Encode, EncodeAll, ErrorAmong, BehindErrorAmong, AllValid;
    ReplyRoundTrip(Array([x, y]), rest);
    ReplyRoundTrip(y, rest);
  }

  lemma PairParts(x: Value, y: Value)
    requires Valid(x) && Valid(y) && x.Error? && !y.Error? && !y.Array?
    ensures AllValid([x, y]) && ErrorAmong([x, y]) == Some(x.msg) && BehindErrorAmong([x, y]) == Encode(y)
  {
    hide Valid, Encode;
    var tail := [x, y][1..];
    assert tail == [y] && tail[1..] == [];
    assert EncodeAll(tail) == Encode(y) + EncodeAll(tail[1..]) == Encode(y);
    assert AllValid(tail[1..]) && AllValid(tail);
    assert BehindError(x) == [];
  }

  // ----- commands

  function Bulks(args: seq<Bytes>): (vs: seq<Value>)
    ensures |vs| == |args|
  {
    if args == [] then [] else [Bulk(args[0])] + Bulks(args[1..])
  }

  function BulksBytes(args: seq<Bytes>): Bytes {
    if args == [] then [] else BulksBytes(args[..|args| - 1]) + BulkBytes(args[|args| - 1])
  }

  /** A command: an array of bulk strings. */
  function CommandBytes(args: seq<Bytes>): Bytes {
    Line(ARRAY, Decimal.FormatInt(|args|)) + BulksBytes(args)
  }

  function Strs(args: seq<Bytes>): (rs: seq<Reply>)
    ensures |rs| == |args|
  {
    if args == [] then [] else [Str(args[0])] + Strs(args[1..])
  }

  lemma {:induction false} BulksBytesFront(a: Bytes, args: seq<Bytes>)
    ensures BulksBytes([a] + args) == BulkBytes(a) + BulksBytes(args)
  {
    hide BulkBytes;
    var n := |args|;
    if n == 0 {
      assert [a] + args == [a] && [a][..0] == [];
    } else {
      assert ([a] + args)[..n] == [a] + args[..n - 1];
      BulksBytesFront(a, args[..n - 1]);
    }
  }

  lemma {:induction false} BulksAreEncoded(args: seq<Bytes>)
    ensures EncodeAll(Bulks(args)) == BulksBytes(args)
  {
    hide BulkBytes;
    if args != [] {
      assert args == [args[0]] + args[1..];
      BulksBytesFront(args[0], args[1..]);
      BulksAreEncoded(args[1..]);
      assert Bulks(args)[1..] == Bulks(args[1..]);
    }
  }

  lemma {:induction false} BulksRead(args: seq<Bytes>)
    requires forall i :: 0 <= i < |args| ==> |args[i]| < TWO_63
    ensures AllValid(Bulks(args)) && ErrorAmong(Bulks(args)).None? && ToReplies(Bulks(args)) == Strs(args)
  {
    if args != [] {
      BulksRead(args[1..]);
      assert Bulks(args)[1..] == Bulks(args[1..]);
    }
  }

  predicate LengthsFit(args: seq<Bytes>) {
    |args| < TWO_63 && forall i :: 0 <= i < |args| ==> |args[i]| < TWO_63
  }

  /** The reader undoes the writer: a command reads back as the array of its
      arguments. */
  lemma CommandReadsBack(args: seq<Bytes>, rest: Bytes)
    requires LengthsFit(args)
    ensures ReadReplyOf(CommandBytes(args) + rest) == Outcome(Ok(Arr(Strs(args))), rest)
  {
    hide ReadReplyOf, EncodeAll, BulksBytes;
    BulksAreEncoded(args);
    BulksRead(args);
    ReplyRoundTrip(Array(Bulks(args)), rest);
  }
}
