/** Demand-driven dispatch of a native stream (gen_stage.ex). */
module GenStageProducer {
  import opened Wrappers

  datatype Pull<B> = Exhausted | Failed | Batch(batch: B)

  datatype Reply<B> = NoReply(events: seq<B>) | Stop

  /** The batches before the stream ends or fails. */
  function Good<B>(items: seq<Option<B>>): seq<B> {
    if items == [] || items[0].None? then [] else [items[0].value] + Good(items[1..])
  }

  lemma {:induction false} GoodMeans<B>(items: seq<Option<B>>, pos: nat)
    requires pos <= |Good(items)|
    ensures |Good(items)| <= |items|
    ensures pos < |Good(items)| ==> items[pos] == Some(Good(items)[pos])
    ensures pos == |Good(items)| < |items| ==> items[pos] == None
  {
    if items != [] && items[0].Some? {
      GoodMeans(items[1..], if pos > 0 then pos - 1 else 0);
    }
  }

  function Reverse<B>(s: seq<B>): seq<B> {
    if s == [] then [] else Reverse(s[1..]) + [s[0]]
  }

  lemma OneMore<B>(acc: seq<B>, good: seq<B>, from: nat, upto: nat)
    requires from < upto <= |good|
    ensures Reverse([good[from]] + acc) + good[from + 1..upto] == Reverse(acc) + good[from..upto]
  {
    assert ([good[from]] + acc)[1..] == acc;
    assert good[from..upto] == [good[from]] + good[from + 1..upto];
  }

  function Min(a: nat, b: nat): nat { if a < b then a else b }

  /** What a stream owes for that much demand. */
  function Owed<B>(items: seq<Option<B>>, asked: nat): seq<B> {
    Good(items)[..Min(asked, |Good(items)|)]
  }

  class NativeStream<B> {
    const items: seq<Option<B>>
    var pos: nat

    constructor (items: seq<Option<B>>)
      ensures this.items == items && pos == 0
    {
      this.items := items;
      pos := 0;
    }

    method Next() returns (r: Pull<B>)
      requires pos <= |Good(items)|
      modifies this
      ensures old(pos) < |Good(items)| ==> r == Batch(Good(items)[old(pos)]) && pos == old(pos) + 1
      ensures old(pos) == |Good(items)| ==> !r.Batch?
    {
      GoodMeans(items, pos);
      if pos == |items| {
        return Exhausted;
      }
      r := match items[pos] case Some(b) => Batch(b) case None => Failed;
      pos := pos + 1;
    }
  }

  /** A producer process: its `State`, the stop messages in its mailbox, and as ghost history the total
      demand and everything emitted. */
  class Producer<B> {
    const source: NativeStream<B>
    var stream: NativeStream?<B>
    var demand: nat
    var done: bool
    var mailbox: nat
    ghost var sent: nat
    ghost var asked: nat
    ghost var emitted: seq<B>

    /** Between callbacks: everything owed has been emitted, an unfinished producer has no pending demand,
        it is finished once the demand went past the stream, and then one stop message was sent. */
    ghost predicate Valid()
      reads this, source
    {
      && emitted == Owed(source.items, asked)
      && (done <==> asked > |Good(source.items)|)
      && (!done ==> demand == 0 && stream == source && source.pos == asked)
      && (done ==> stream == null)
      && sent == (if done then 1 else 0)
      && mailbox <= sent
    }

    constructor (source: NativeStream<B>)
      requires source.pos == 0
      ensures Valid() && this.source == source && asked == 0 && emitted == [] && !done && sent == 0 && mailbox == 0
    {
      this.source := source;
      stream := source;
      demand, done, mailbox := 0, false, 0;
      sent, asked, emitted := 0, 0, [];
    }

    /** `do_dispatch`, `acc` newest first. */
    method DoDispatch(acc: seq<B>) returns (events: seq<B>)
      requires !done && stream == source && source.pos <= |Good(source.items)|
      modifies this`stream, this`demand, this`done, this`mailbox, this`sent, source
      ensures done <==> old(source.pos) + old(demand) > |Good(source.items)|
      ensures var upto := Min(old(source.pos) + old(demand), |Good(source.items)|);
              events == Reverse(acc) + Good(source.items)[old(source.pos)..upto]
      ensures !done ==> demand == 0 && stream == source && source.pos == old(source.pos) + old(demand)
      ensures !done ==> sent == old(sent) && mailbox == old(mailbox)
      ensures done ==> stream == null && sent == old(sent) + 1 && mailbox == old(mailbox) + 1
      decreases demand
    {
      if demand == 0 {
        return Reverse(acc);
      }
      ghost var from, good := source.pos, Good(source.items);
      var pull := stream.Next();
      if !pull.Batch? {
        mailbox, sent := mailbox + 1, sent + 1;
        done, stream := true, null;
        return Reverse(acc);
      }
      demand := demand - 1;
      events := DoDispatch([pull.batch] + acc);
      OneMore(acc, good, from, Min(from + old(demand), |good|));
    }

    /** `dispatch`. */
    method Dispatch(more: nat) returns (reply: Reply<B>)
      requires Valid()
      modifies this, source
      ensures Valid() && asked == old(asked) + more
      ensures reply.NoReply? && emitted == old(emitted) + reply.events
      ensures old(done) ==> done && reply.events == [] && mailbox == old(mailbox)
      ensures !old(done) ==> mailbox == old(mailbox) + sent
    {
      ghost var good := Good(source.items);
      asked := asked + more;
      if done {
        return NoReply([]);
      }
      demand := demand + more;
      var events := DoDispatch([]);
      assert good[..old(asked)] + good[old(asked)..Min(asked, |good|)] == Owed(source.items, asked);
      emitted := emitted + events;
      reply := NoReply(events);
    }

    /** `handle_stop`, on a stop message. */
    method HandleStop() returns (reply: Reply<B>)
      requires Valid() && mailbox > 0
      modifies this`done, this`stream, this`mailbox
      ensures Valid() && reply == Stop && mailbox == 0 && done
    {
      mailbox := mailbox - 1;
      done, stream := true, null;
      reply := Stop;
    }
  }

  ghost function Total(demands: seq<nat>): nat {
    if demands == [] then 0 else Total(demands[..|demands| - 1]) + demands[|demands| - 1]
  }

  /** A whole run: whatever the demands, the events are the first batches of the stream, as many as were
      asked for and as there are before its end or error, and the stop message is sent at most once,
      exactly when more was asked for. */
  method Serve<B>(items: seq<Option<B>>, demands: seq<nat>) returns (events: seq<B>, stops: nat)
    ensures events == Good(items)[..Min(Total(demands), |Good(items)|)]
    ensures stops == if Total(demands) > |Good(items)| then 1 else 0
  {
    var source := new NativeStream(items);
    var producer := new Producer(source);
    events := [];
    for k := 0 to |demands|
      invariant producer.Valid() && producer.source == source
      invariant fresh(producer) && fresh(source)
      invariant producer.asked == Total(demands[..k]) && events == producer.emitted
      invariant producer.mailbox == producer.sent
    {
      assert demands[..k + 1][..k] == demands[..k];
      var reply := producer.Dispatch(demands[k]);
      events := events + reply.events;
    }
    assert demands[..|demands|] == demands;
    stops := producer.mailbox;
  }
}
