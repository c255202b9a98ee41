/** Arbitrary server streams: what is read does not depend on what follows, and exactly which
    streams close or stall the reader. */
module RespStreams {
  import opened Wrappers
  import opened Bytes
  import opened Resp

  // ---------- locality ----------

  /** The same outcome with more of the stream left over. */
  function More<T>(o: Outcome<T>, c: seq<byte>): Outcome<T> { Outcome(o.result, o.rest + c) }

  lemma {:induction false} LineLocal(b: seq<byte>, c: seq<byte>)
    requires SplitLine(b).Some?
    ensures SplitLine(b + c) == Some((SplitLine(b).value.0, SplitLine(b).value.1 + c))
  {
    if b[0] == 13 && b[1] == 10 {
      assert (b + c)[2..] == b[2..] + c;
    } else {
      LineLocal(b[1..], c);
      assert (b + c)[1..] == b[1..] + c;
    }
  }

  lemma BulkLocal(b: seq<byte>, c: seq<byte>, size: nat)
    requires |b| >= size + 2
    ensures BulkOf(b + c, size) == More(BulkOf(b, size), c)
  {
    assert (b + c)[..size] == b[..size] && (b + c)[size + 2..] == b[size + 2..] + c;
  }

  lemma ReplyByBody(b: seq<byte>, line: seq<byte>, rest: seq<byte>)
    requires b != [] && SplitLine(b[1..]) == Some((line, rest))
    ensures ReplyOf(b) == BodyOf(b[0], line, rest)
  {
  }

  lemma ReplyWithoutLine(b: seq<byte>)
    requires b == [] || SplitLine(b[1..]).None?
    ensures ReplyOf(b) == Outcome(Err(Closed), [])
  {
  }

  lemma MoreItem(item: Reply, o: Outcome<seq<Reply>>, c: seq<byte>)
    ensures More(Prepend([item], o), c) == Prepend([item], More(o, c))
  {
  }

  /** A reply that the stream does not cut short is read the same, and to the same byte, whatever
      follows it. */
  lemma {:induction false} ReplyLocal(b: seq<byte>, c: seq<byte>)
    requires !RanOut(ReplyOf(b).result)
    ensures ReplyOf(b + c) == More(ReplyOf(b), c)
    decreases |b|, 0
  {
    if b == [] || SplitLine(b[1..]).None? {
      ReplyWithoutLine(b);
    } else {
      var (line, rest) := SplitLine(b[1..]).value;
      LineLocal(b[1..], c);
      assert (b + c)[1..] == b[1..] + c;
      ReplyByBody(b, line, rest);
      ReplyByBody(b + c, line, rest + c);
      BodyLocal(b[0], line, rest, c);
    }
  }

  lemma {:induction false} BodyLocal(kind: byte, line: seq<byte>, rest: seq<byte>, c: seq<byte>)
    requires !RanOut(BodyOf(kind, line, rest).result)
    ensures BodyOf(kind, line, rest + c) == More(BodyOf(kind, line, rest), c)
    decreases |rest| + 1, 0
  {
    if kind == 36 && PyInt(line).Some? && PyInt(line).value >= 0 {
      BulkLocal(rest, c, PyInt(line).value);
    } else if kind == 42 && PyInt(line).Some? {
      RepliesLocal(rest, c, CountOf(PyInt(line).value));
    }
  }

  lemma {:induction false} RepliesLocal(b: seq<byte>, c: seq<byte>, count: nat)
    requires !RanOut(RepliesOf(b, count).result)
    ensures RepliesOf(b + c, count) == More(RepliesOf(b, count), c)
    decreases |b|, count + 1
  {
    if count > 0 {
      var first := ReplyOf(b);
      ReplyLocal(b, c);
      if first.result.Ok? {
        RepliesLocal(first.rest, c, count - 1);
        ItemsStep(b, count, first.result.value, first.rest);
        ItemsStep(b + c, count, first.result.value, first.rest + c);
        MoreItem(first.result.value, RepliesOf(first.rest, count - 1), c);
      }
    }
  }

  // ---------- where a stream runs out ----------

  /** The stream, at a place where a reply begins, ends before the reply's first line does. */
  predicate EndsInLine(s: seq<byte>) { s == [] || SplitLine(s[1..]).None? }

  /** The stream, at a place where a reply begins, announces a bulk string and ends before its
      payload and two closing bytes. */
  predicate EndsInBulk(s: seq<byte>) {
    s != [] && s[0] == 36 && SplitLine(s[1..]).Some?
    && var (line, rest) := SplitLine(s[1..]).value;
      PyInt(line).Some? && 0 <= PyInt(line).value && |rest| < PyInt(line).value + 2
  }

  /** Reading `b`, the reader begins a reply at the suffix `s`: at the front, or at an item of an
      array, nested to any depth, all of whose earlier items were read. */
  predicate Reaches(b: seq<byte>, s: seq<byte>)
    decreases |b|, 0
  {
    s == b
    || (b != [] && b[0] == 42 && SplitLine(b[1..]).Some?
        && var (line, rest) := SplitLine(b[1..]).value;
          PyInt(line).Some? && ReachesItem(rest, CountOf(PyInt(line).value), s))
  }

  predicate ReachesItem(b: seq<byte>, count: nat, s: seq<byte>)
    decreases |b|, count + 1
  {
    count > 0
    && (Reaches(b, s) || (ReplyOf(b).result.Ok? && ReachesItem(ReplyOf(b).rest, count - 1, s)))
  }

  /** Running out at `s` is what ended the reading, with this failure. */
  predicate EndsAt(s: seq<byte>, e: Failure) {
    (e == Closed && EndsInLine(s)) || (e == Stalled && EndsInBulk(s))
  }

  lemma EndsFrontReply(b: seq<byte>, e: Failure)
    requires EndsAt(b, e)
    ensures ReplyOf(b).result == Err(e)
  {
  }

  /** Whatever the reader reaches and cannot finish decides the outcome. */
  lemma {:induction false} ReachedEndDecides(b: seq<byte>, s: seq<byte>, e: Failure)
    requires Reaches(b, s) && EndsAt(s, e)
    ensures ReplyOf(b).result == Err(e)
    decreases |b|, 0
  {
    if s == b {
      EndsFrontReply(b, e);
    } else {
      var (line, rest) := SplitLine(b[1..]).value;
      ReachedItemDecides(rest, CountOf(PyInt(line).value), s, e);
      ReplyByBody(b, line, rest);
    }
  }

  lemma {:induction false} ReachedItemDecides(b: seq<byte>, count: nat, s: seq<byte>, e: Failure)
    requires ReachesItem(b, count, s) && EndsAt(s, e)
    ensures RepliesOf(b, count).result == Err(e)
    decreases |b|, count + 1
  {
    if Reaches(b, s) {
      ReachedEndDecides(b, s, e);
    } else {
      ReachedItemDecides(ReplyOf(b).rest, count - 1, s, e);
      ItemsStep(b, count, ReplyOf(b).result.value, ReplyOf(b).rest);
    }
  }

  /** A reading that runs out ran out somewhere it had reached. */
  lemma {:induction false} EndFound(b: seq<byte>, e: Failure) returns (s: seq<byte>)
    requires ReplyOf(b).result == Err(e) && (e == Closed || e == Stalled)
    ensures Reaches(b, s) && EndsAt(s, e)
    decreases |b|, 0
  {
    s := b;
    if b != [] && SplitLine(b[1..]).Some? {
      var (line, rest) := SplitLine(b[1..]).value;
      ReplyByBody(b, line, rest);
      if b[0] == 42 && PyInt(line).Some? {
        s := ItemEndFound(rest, CountOf(PyInt(line).value), e);
      }
    }
  }

  lemma {:induction false} ItemEndFound(b: seq<byte>, count: nat, e: Failure) returns (s: seq<byte>)
    requires RepliesOf(b, count).result == Err(e) && (e == Closed || e == Stalled)
    ensures ReachesItem(b, count, s) && EndsAt(s, e)
    decreases |b|, count + 1
  {
    var first := ReplyOf(b);
    if first.result.Err? {
      s := EndFound(b, e);
    } else {
      ItemsStep(b, count, first.result.value, first.rest);
      s := ItemEndFound(first.rest, count - 1, e);
    }
  }

  /** For every stream: the reader stalls exactly when it reaches a bulk string that the stream cuts
      short behind its header, in whatever array, and it reports a closed connection exactly when
      it reaches a reply whose first line the stream cuts short. */
  lemma RunsOutExactly(b: seq<byte>)
    ensures ReplyOf(b).result == Err(Stalled) <==> exists s :: Reaches(b, s) && EndsInBulk(s)
    ensures ReplyOf(b).result == Err(Closed) <==> exists s :: Reaches(b, s) && EndsInLine(s)
  {
    if ReplyOf(b).result == Err(Stalled) { var s := EndFound(b, Stalled); }
    if ReplyOf(b).result == Err(Closed) { var s := EndFound(b, Closed); }
    forall s | Reaches(b, s) && EndsInBulk(s) ensures ReplyOf(b).result == Err(Stalled) { ReachedEndDecides(b, s, Stalled); }
    forall s | Reaches(b, s) && EndsInLine(s) ensures ReplyOf(b).result == Err(Closed) { ReachedEndDecides(b, s, Closed); }
  }
}
