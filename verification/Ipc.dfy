/**
 The message broker over its topic table. Each request scans the table, changes at most the
 slots it found, and leaves the table that Topics describes.
 */
module Ipc {
  import opened Bits
  import opened Errnos
  import opened Topics

  class Broker {
    const topics: array<Topic>
    const depth: nat
    const msgMax: nat

    constructor (maxTopics: nat, maxSubs: nat, depth: nat, msgMax: nat)
      requires 1 <= maxSubs
      ensures fresh(topics) && Start(topics[..], depth)
      ensures this.depth == depth && this.msgMax == msgMax
    {
      var subs := seq(maxSubs, i => NO_SUB);
      topics := new Topic[maxTopics](i => Topic(false, "", subs));
      this.depth := depth;
      this.msgMax := msgMax;
    }

    method LookUpTopic(name: string) returns (r: Option<nat>)
      ensures r == FindTopic(topics[..], name)
    {
      var i: nat := 0;
      while i < topics.Length
        invariant i <= topics.Length
        invariant FindTopic(topics[..], name) == FindTopic(topics[..], name, i)
      {
        if topics[i].used && topics[i].name == name {
          return Some(i);
        }
        i := i + 1;
      }
      return None;
    }

    /** The topic of that name, or a free slot given the name. */
    method GetOrCreateTopic(name: string) returns (r: Option<nat>)
      modifies topics
      ensures var ts := old(topics[..]);
              match FindTopic(ts, name)
              case Some(i) => r == Some(i) && topics[..] == ts
              case None =>
                r == FreeTopic(ts)
                && topics[..] == if r.None? then ts else ts[r.value := ts[r.value].(used := true, name := Cut(name))]
    {
      r := LookUpTopic(name);
      if r.Some? {
        return;
      }
      var i: nat := 0;
      while i < topics.Length && topics[i].used
        invariant i <= topics.Length
        invariant FreeTopic(topics[..]) == FreeTopic(topics[..], i)
      {
        i := i + 1;
      }
      if i == topics.Length {
        return None;
      }
      topics[i] := topics[i].(used := true, name := Cut(name));
      return Some(i);
    }

    static method LookUpSub(ss: seq<Sub>, name: string) returns (r: Option<nat>)
      ensures r == FindSub(ss, name)
    {
      var i: nat := 0;
      while i < |ss|
        invariant i <= |ss|
        invariant FindSub(ss, name) == FindSub(ss, name, i)
      {
        if ss[i].used && ss[i].name == name {
          return Some(i);
        }
        i := i + 1;
      }
      return None;
    }

    method CreateSub(i: nat, app: string) returns (ok: bool)
      requires i < topics.Length && FindSub(topics[i].subs, app).None?
      modifies topics
      ensures topics[..] == old(topics[..])[i := Joined(old(topics[i]), app).0]
      ensures ok == Joined(old(topics[i]), app).1
    {
      var ss := topics[i].subs;
      var j: nat := 0;
      while j < |ss| && ss[j].used
        invariant j <= |ss|
        invariant FreeSub(ss) == FreeSub(ss, j)
      {
        j := j + 1;
      }
      if j == |ss| {
        return false;
      }
      topics[i] := topics[i].(subs := ss[j := Sub(true, Cut(app), [])]);
      return true;
    }

    method SubscribeApp(topic: string, app: string) returns (r: Result<()>)
      modifies topics
      ensures topic == "" || app == "" ==> r == Err(EINVAL) && topics[..] == old(topics[..])
      ensures topic != "" && app != "" ==>
                topics[..] == Subscribed(old(topics[..]), topic, app).0
                && r == if Subscribed(old(topics[..]), topic, app).1 then Ok(()) else Err(ENOMEM)
    {
      if topic == "" || app == "" {
        return Err(EINVAL);
      }
      var t := GetOrCreateTopic(topic);
      if t.None? {
        return Err(ENOMEM);
      }
      var s := LookUpSub(topics[t.value].subs, app);
      if s.Some? {
        return Ok(());
      }
      var ok := CreateSub(t.value, app);
      return if ok then Ok(()) else Err(ENOMEM);
    }

    /** Frees the topic if nobody is left in it. */
    method Settle(i: nat)
      requires i < topics.Length
      modifies topics
      ensures topics[..] == old(topics[..])[i := Settled(old(topics[i]))]
    {
      var ss := topics[i].subs;
      var anyUsed := false;
      var j: nat := 0;
      while j < |ss| && !anyUsed
        invariant j <= |ss|
        invariant anyUsed ==> AnySub(ss)
        invariant !anyUsed ==> forall k :: 0 <= k < j ==> !ss[k].used
        decreases |ss| - j, !anyUsed
      {
        if ss[j].used {
          anyUsed := true;
        } else {
          j := j + 1;
        }
      }
      if !anyUsed {
        topics[i] := topics[i].(used := false, name := "");
      }
    }

    method UnsubscribeApp(topic: string, app: string) returns (r: Result<()>)
      modifies topics
      ensures topics[..] == Left(old(topics[..]), topic, app)
      ensures r == if QueueOf(old(topics[..]), topic, app).Some? then Ok(()) else Err(ENOENT)
    {
      var t := LookUpTopic(topic);
      if t.None? {
        return Err(ENOENT);
      }
      var s := LookUpSub(topics[t.value].subs, app);
      if s.None? {
        return Err(ENOENT);
      }
      topics[t.value] := topics[t.value].(subs := topics[t.value].subs[s.value := NO_SUB]);
      Settle(t.value);
      return Ok(());
    }

    /** Offers the message to each subscriber without waiting; returns how many took it. */
    method PublishMsg(topic: string, data: Msg) returns (r: Result<nat>)
      modifies topics
      ensures data == [] || |data| > msgMax ==> r == Err(EMSGSIZE) && topics[..] == old(topics[..])
      ensures !(data == [] || |data| > msgMax) ==>
                topics[..] == Published(old(topics[..]), topic, data, depth)
                && r == Ok(Delivered(old(topics[..]), topic, depth))
    {
      if data == [] || |data| > msgMax {
        return Err(EMSGSIZE);
      }
      var t := LookUpTopic(topic);
      if t.None? {
        return Ok(0);
      }
      var i := t.value;
      ghost var ts := topics[..];
      ghost var ss := topics[i].subs;
      var delivered: nat := 0;
      var j: nat := 0;
      while j < |topics[i].subs|
        invariant j <= |ss|
        invariant topics[..] == ts[i := ts[i].(subs := Offered(ss, data, depth, j))]
        invariant delivered == Takers(ss, depth, j)
      {
        var s := topics[i].subs[j];
        if s.used && |s.queue| < depth {
          topics[i] := topics[i].(subs := topics[i].subs[j := s.(queue := s.queue + [data])]);
          delivered := delivered + 1;
        }
        assert s == ss[j] && topics[i].subs == Offered(ss, data, depth, j + 1);
        j := j + 1;
      }
      return Ok(delivered);
    }

    /** Takes the oldest message; the caller's buffer of `len` bytes gets its beginning. */
    method Receive(topic: string, app: string, len: nat) returns (r: Result<Msg>)
      modifies topics
      ensures len == 0 ==> r == Err(EINVAL) && topics[..] == old(topics[..])
      ensures len > 0 ==> topics[..] == Popped(old(topics[..]), topic, app)
      ensures len > 0 ==>
                r == match QueueOf(old(topics[..]), topic, app)
                     case None => Err(ENOENT)
                     case Some(q) => if q == [] then Err(EAGAIN) else Ok(q[0][..if |q[0]| < len then |q[0]| else len])
    {
      if len == 0 {
        return Err(EINVAL);
      }
      var t := LookUpTopic(topic);
      if t.None? {
        return Err(ENOENT);
      }
      var s := LookUpSub(topics[t.value].subs, app);
      if s.None? {
        return Err(ENOENT);
      }
      var sub := topics[t.value].subs[s.value];
      if sub.queue == [] {
        return Err(EAGAIN);
      }
      topics[t.value] := topics[t.value].(subs := topics[t.value].subs[s.value := sub.(queue := sub.queue[1..])]);
      var copy := if |sub.queue[0]| < len then |sub.queue[0]| else len;
      return Ok(sub.queue[0][..copy]);
    }

    method Pending(topic: string, app: string) returns (r: Result<nat>)
      ensures r == match QueueOf(topics[..], topic, app) case None => Err(ENOENT) case Some(q) => Ok(|q|)
    {
      var t := LookUpTopic(topic);
      if t.None? {
        return Err(ENOENT);
      }
      var s := LookUpSub(topics[t.value].subs, app);
      if s.None? {
        return Err(ENOENT);
      }
      return Ok(|topics[t.value].subs[s.value].queue|);
    }

    /** Removes an app from every topic, and the topics it leaves empty. */
    method CleanupApp(app: string)
      modifies topics
      ensures topics[..] == if app == "" then old(topics[..]) else Cleaned(old(topics[..]), app, topics.Length)
    {
      if app == "" {
        return;
      }
      ghost var ts := topics[..];
      var i: nat := 0;
      while i < topics.Length
        invariant i <= topics.Length
        invariant topics[..] == Cleaned(ts, app, i)
      {
        if topics[i].used {
          CleanSubs(i, app);
          Settle(i);
        }
        i := i + 1;
      }
    }

    method CleanSubs(i: nat, app: string)
      requires i < topics.Length
      modifies topics
      ensures var t := old(topics[i]);
              topics[..] == old(topics[..])[i := t.(subs := Without(t.subs, app, |t.subs|))]
    {
      ghost var ts := topics[..];
      ghost var ss := topics[i].subs;
      var j: nat := 0;
      while j < |topics[i].subs|
        invariant j <= |ss|
        invariant topics[..] == ts[i := ts[i].(subs := Without(ss, app, j))]
      {
        if topics[i].subs[j].used && topics[i].subs[j].name == app {
          topics[i] := topics[i].(subs := topics[i].subs[j := NO_SUB]);
        }
        j := j + 1;
      }
    }
  }
}
