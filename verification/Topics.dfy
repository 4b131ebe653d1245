/**
 Topics, subscribers and their bounded queues as values: what each request does to the tables,
 and the map from (topic, app) to queue that the tables stand for.
 */
module Topics {
  import opened Bits
  import opened Errnos

  const NAME_MAX: nat := 32

  type Msg = seq<byte>

  datatype Sub = Sub(used: bool, name: string, queue: seq<Msg>)

  datatype Topic = Topic(used: bool, name: string, subs: seq<Sub>)

  const NO_SUB := Sub(false, "", [])

  /** What `strncpy` into a name field keeps. */
  function Cut(name: string): (r: string)
    ensures |r| < NAME_MAX
  {
    if |name| < NAME_MAX then name else name[..NAME_MAX - 1]
  }

  predicate IsTopic(t: Topic, name: string) { t.used && t.name == name }

  predicate IsSub(s: Sub, name: string) { s.used && s.name == name }

  function FindTopic(ts: seq<Topic>, name: string, i: nat := 0): (r: Option<nat>)
    requires i <= |ts|
    ensures r.Some? ==> i <= r.value < |ts| && IsTopic(ts[r.value], name)
    ensures r.None? ==> forall k :: i <= k < |ts| ==> !IsTopic(ts[k], name)
    decreases |ts| - i
  {
    if i == |ts| then None else if IsTopic(ts[i], name) then Some(i) else FindTopic(ts, name, i + 1)
  }

  function FreeTopic(ts: seq<Topic>, i: nat := 0): (r: Option<nat>)
    requires i <= |ts|
    ensures r.Some? ==> i <= r.value < |ts| && !ts[r.value].used
    ensures r.None? ==> forall k :: i <= k < |ts| ==> ts[k].used
    decreases |ts| - i
  {
    if i == |ts| then None else if !ts[i].used then Some(i) else FreeTopic(ts, i + 1)
  }

  function FindSub(ss: seq<Sub>, name: string, i: nat := 0): (r: Option<nat>)
    requires i <= |ss|
    ensures r.Some? ==> i <= r.value < |ss| && IsSub(ss[r.value], name)
    ensures r.None? ==> forall k :: i <= k < |ss| ==> !IsSub(ss[k], name)
    decreases |ss| - i
  {
    if i == |ss| then None else if IsSub(ss[i], name) then Some(i) else FindSub(ss, name, i + 1)
  }

  function FreeSub(ss: seq<Sub>, i: nat := 0): (r: Option<nat>)
    requires i <= |ss|
    ensures r.Some? ==> i <= r.value < |ss| && !ss[r.value].used
    ensures r.None? ==> forall k :: i <= k < |ss| ==> ss[k].used
    decreases |ss| - i
  {
    if i == |ss| then None else if !ss[i].used then Some(i) else FreeSub(ss, i + 1)
  }

  predicate AnySub(ss: seq<Sub>) {
    exists j | 0 <= j < |ss| :: ss[j].used
  }

  /** The topic is freed with its last subscriber. */
  function Settled(t: Topic): (r: Topic) {
    if AnySub(t.subs) then t else t.(used := false, name := "")
  }

  // ----- what the requests do -----

  /** A subscriber joins a topic in use. */
  function Joined(t: Topic, app: string): (r: (Topic, bool)) {
    if FindSub(t.subs, app).Some? then (t, true)
    else
      match FreeSub(t.subs)
      case None => (t, false)
      case Some(j) => (t.(subs := t.subs[j := Sub(true, Cut(app), [])]), true)
  }

  function Subscribed(ts: seq<Topic>, topic: string, app: string): (r: (seq<Topic>, bool)) {
    match FindTopic(ts, topic)
    case Some(i) =>
      var (t, ok) := Joined(ts[i], app);
      (ts[i := t], ok)
    case None =>
      match FreeTopic(ts)
      case None => (ts, false)
      case Some(i) =>
        var (t, ok) := Joined(ts[i].(used := true, name := Cut(topic)), app);
        (ts[i := t], ok)
  }

  function Left(ts: seq<Topic>, topic: string, app: string): (r: seq<Topic>) {
    match FindTopic(ts, topic)
    case None => ts
    case Some(i) =>
      match FindSub(ts[i].subs, app)
      case None => ts
      case Some(j) => ts[i := Settled(ts[i].(subs := ts[i].subs[j := NO_SUB]))]
  }

  function Offer(s: Sub, m: Msg, depth: nat): (r: Sub) {
    if s.used && |s.queue| < depth then s.(queue := s.queue + [m]) else s
  }

  /** The message offered to the first `n` subscribers. */
  function Offered(ss: seq<Sub>, m: Msg, depth: nat, n: nat): (r: seq<Sub>)
    requires n <= |ss|
    ensures |r| == |ss|
    ensures forall j :: 0 <= j < |ss| ==> r[j] == if j < n then Offer(ss[j], m, depth) else ss[j]
  {
    if n == 0 then ss else Offered(ss, m, depth, n - 1)[n - 1 := Offer(ss[n - 1], m, depth)]
  }

  /** How many of the first `n` have room. */
  function Takers(ss: seq<Sub>, depth: nat, n: nat): (r: nat)
    requires n <= |ss|
  {
    if n == 0 then 0 else Takers(ss, depth, n - 1) + if ss[n - 1].used && |ss[n - 1].queue| < depth then 1 else 0
  }

  function Published(ts: seq<Topic>, topic: string, m: Msg, depth: nat): (r: seq<Topic>) {
    match FindTopic(ts, topic)
    case None => ts
    case Some(i) => ts[i := ts[i].(subs := Offered(ts[i].subs, m, depth, |ts[i].subs|))]
  }

  function Delivered(ts: seq<Topic>, topic: string, depth: nat): (r: nat) {
    match FindTopic(ts, topic)
    case None => 0
    case Some(i) => Takers(ts[i].subs, depth, |ts[i].subs|)
  }

  function Popped(ts: seq<Topic>, topic: string, app: string): (r: seq<Topic>) {
    match FindTopic(ts, topic)
    case None => ts
    case Some(i) =>
      match FindSub(ts[i].subs, app)
      case None => ts
      case Some(j) =>
        var s := ts[i].subs[j];
        if s.queue == [] then ts else ts[i := ts[i].(subs := ts[i].subs[j := s.(queue := s.queue[1..])])]
  }

  /** Every subscriber of that name among the first `n` is gone. */
  function Without(ss: seq<Sub>, app: string, n: nat): (r: seq<Sub>)
    requires n <= |ss|
    ensures |r| == |ss|
    ensures forall j :: 0 <= j < |ss| ==> r[j] == if j < n && IsSub(ss[j], app) then NO_SUB else ss[j]
  {
    if n == 0 then ss
    else if IsSub(ss[n - 1], app) then Without(ss, app, n - 1)[n - 1 := NO_SUB]
    else Without(ss, app, n - 1)
  }

  function CleanTopic(t: Topic, app: string): (r: Topic) {
    if t.used then Settled(t.(subs := Without(t.subs, app, |t.subs|))) else t
  }

  /** The app is gone from the first `n` topics. */
  function Cleaned(ts: seq<Topic>, app: string, n: nat): (r: seq<Topic>)
    requires n <= |ts|
    ensures |r| == |ts|
    ensures forall i :: 0 <= i < |ts| ==> r[i] == if i < n then CleanTopic(ts[i], app) else ts[i]
  {
    if n == 0 then ts else Cleaned(ts, app, n - 1)[n - 1 := CleanTopic(ts[n - 1], app)]
  }

  // ----- what the tables stand for -----

  /** The queue of an app on a topic. */
  function QueueOf(ts: seq<Topic>, topic: string, app: string): (r: Option<seq<Msg>>) {
    match FindTopic(ts, topic)
    case None => None
    case Some(i) =>
      match FindSub(ts[i].subs, app)
      case None => None
      case Some(j) => Some(ts[i].subs[j].queue)
  }

  ghost predicate SubsOk(ss: seq<Sub>, depth: nat) {
    && (forall j :: 0 <= j < |ss| && ss[j].used ==> |ss[j].name| < NAME_MAX && |ss[j].queue| <= depth)
    && (forall j, k :: 0 <= j < k < |ss| && ss[j].used && ss[k].used ==> ss[j].name != ss[k].name)
  }

  ghost predicate TopicOk(t: Topic, depth: nat) {
    && |t.subs| >= 1
    && SubsOk(t.subs, depth)
    && (t.used <==> AnySub(t.subs))
    && |t.name| < NAME_MAX
  }

  /** Names are unique, queues are bounded, and a topic is in use exactly when it has a subscriber. */
  ghost predicate Inv(ts: seq<Topic>, depth: nat) {
    && (forall i :: 0 <= i < |ts| ==> TopicOk(ts[i], depth))
    && (forall i, k :: 0 <= i < k < |ts| && ts[i].used && ts[k].used ==> ts[i].name != ts[k].name)
  }

  lemma FoundTopic(ts: seq<Topic>, depth: nat, i: nat)
    requires Inv(ts, depth) && i < |ts| && ts[i].used
    ensures FindTopic(ts, ts[i].name) == Some(i)
  {
    assert IsTopic(ts[i], ts[i].name);
  }

  lemma FoundSub(ss: seq<Sub>, depth: nat, j: nat)
    requires SubsOk(ss, depth) && j < |ss| && ss[j].used
    ensures FindSub(ss, ss[j].name) == Some(j)
  {
    assert IsSub(ss[j], ss[j].name);
  }

  /** The queue an app has within one topic. */
  function Within(t: Topic, app: string): (r: Option<seq<Msg>>) {
    match FindSub(t.subs, app)
    case None => None
    case Some(j) => Some(t.subs[j].queue)
  }

  /** Changing one topic in use, keeping its name or freeing it, changes the queues of that name only. */
  lemma OtherTopics(ts: seq<Topic>, depth: nat, i: nat, t: Topic, topic: string, app: string)
    requires i < |ts| && Inv(ts, depth) && Inv(ts[i := t], depth)
    requires (ts[i].used ==> ts[i].name != topic) && (t.used ==> t.name != topic)
    ensures QueueOf(ts[i := t], topic, app) == QueueOf(ts, topic, app)
  {
    hide Inv, FindSub;
    var ts' := ts[i := t];
    var r := FindTopic(ts, topic);
    var r' := FindTopic(ts', topic);
    if r.Some? {
      assert IsTopic(ts'[r.value], topic);
      FoundTopic(ts', depth, r.value);
      assert ts'[r.value] == ts[r.value];
    } else {
      forall k | 0 <= k < |ts'|
        ensures !IsTopic(ts'[k], topic)
      {
        assert !IsTopic(ts[k], topic);
      }
    }
  }

  lemma ThisTopic(ts: seq<Topic>, depth: nat, i: nat, app: string)
    requires Inv(ts, depth) && i < |ts| && ts[i].used
    ensures QueueOf(ts, ts[i].name, app) == Within(ts[i], app)
  {
    FoundTopic(ts, depth, i);
  }

  /** A free topic holds nobody. */
  lemma NobodyWithin(t: Topic, depth: nat, app: string)
    requires TopicOk(t, depth) && !t.used
    ensures Within(t, app) == None
  {
    assert forall j :: 0 <= j < |t.subs| ==> !t.subs[j].used;
  }

  /** Replacing topic `i`: what everyone's queue is then. */
  lemma Replaced(ts: seq<Topic>, depth: nat, i: nat, t: Topic, name: string, ts': seq<Topic>)
    requires Inv(ts, depth) && TopicOk(t, depth) && i < |ts| && ts' == ts[i := t]
    requires t.used ==> t.name == name
    requires ts[i].used ==> ts[i].name == name
    requires !ts[i].used ==> FindTopic(ts, name).None?
    ensures Inv(ts', depth)
    ensures forall topic, app ::
              QueueOf(ts', topic, app) == if topic == name then Within(t, app) else QueueOf(ts, topic, app)
  {
    hide TopicOk, FindSub;
    assert Inv(ts', depth) by {
      forall k | 0 <= k < |ts| && k != i && ts[k].used
        ensures ts[k].name != name
      {
        assert !ts[i].used ==> !IsTopic(ts[k], name);
      }
    }
    forall topic, app
      ensures QueueOf(ts', topic, app) == if topic == name then Within(t, app) else QueueOf(ts, topic, app)
    {
      if topic != name {
        OtherTopics(ts, depth, i, t, topic, app);
      } else if t.used {
        ThisTopic(ts', depth, i, app);
      } else {
        NobodyWithin(t, depth, app);
        forall k | 0 <= k < |ts'|
          ensures !IsTopic(ts'[k], name)
        {
          assert !ts[i].used ==> !IsTopic(ts[k], name);
        }
      }
    }
  }

  // ----- the effect of each request on the map -----

  lemma JoinedOk(t: Topic, depth: nat, app: string)
    requires SubsOk(t.subs, depth) && |t.subs| >= 1
    requires FindSub(t.subs, app).Some? || FindSub(t.subs, Cut(app)).None?
    ensures var (t', ok) := Joined(t, app);
            && SubsOk(t'.subs, depth)
            && t'.used == t.used && t'.name == t.name && |t'.subs| == |t.subs|
            && (ok ==> AnySub(t'.subs)) && (!ok ==> t' == t)
            && (!AnySub(t.subs) ==> ok)
            && forall a :: Within(t', a) == if ok && a == Cut(app) && Within(t, app).None? then Some([]) else Within(t, a)
  {
    var (t', ok) := Joined(t, app);
    var r := FindSub(t.subs, app);
    if r.None? && ok {
      var j := FreeSub(t.subs).value;
      forall k | 0 <= k < |t.subs| && t.subs[k].used
        ensures t.subs[k].name != Cut(app)
      {
        assert !IsSub(t.subs[k], Cut(app));
      }
      OneSub(t, t', depth, j, Cut(app));
      FoundSub(t'.subs, depth, j);
    }
  }

  /** Two topics that differ at subscriber `j` only: the names found elsewhere keep their queues. */
  lemma OneSub(t: Topic, t': Topic, depth: nat, j: nat, app: string)
    requires SubsOk(t.subs, depth) && SubsOk(t'.subs, depth) && |t'.subs| == |t.subs| && j < |t.subs|
    requires forall k :: 0 <= k < |t.subs| && k != j ==> t'.subs[k] == t.subs[k]
    requires (t.subs[j].used ==> t.subs[j].name == app) && (t'.subs[j].used ==> t'.subs[j].name == app)
    ensures forall a :: a != app ==> Within(t', a) == Within(t, a)
  {
    forall a | a != app
      ensures Within(t', a) == Within(t, a)
    {
      var r := FindSub(t.subs, a);
      if r.Some? {
        assert IsSub(t'.subs[r.value], a);
        FoundSub(t'.subs, depth, r.value);
      } else {
        forall k | 0 <= k < |t'.subs|
          ensures !IsSub(t'.subs[k], a)
        {
          assert !IsSub(t.subs[k], a);
        }
      }
    }
  }

  /** Joining needs a place in the topic, and a new topic a place in the table. */
  predicate HasPlace(ts: seq<Topic>, topic: string, app: string) {
    match FindTopic(ts, topic)
    case Some(i) => FindSub(ts[i].subs, app).Some? || FreeSub(ts[i].subs).Some?
    case None => FreeTopic(ts).Some?
  }

  /** There is a place for the app itself or a free one in the topic's own row, or a free row if there is no such topic. */
  lemma HasPlaceIff(ts: seq<Topic>, depth: nat, topic: string, app: string)
    requires Inv(ts, depth)
    ensures HasPlace(ts, topic, app) <==>
              || (exists i, j :: 0 <= i < |ts| && IsTopic(ts[i], topic) && 0 <= j < |ts[i].subs|
                                 && (IsSub(ts[i].subs[j], app) || !ts[i].subs[j].used))
              || ((forall i :: 0 <= i < |ts| ==> !IsTopic(ts[i], topic)) && exists i :: 0 <= i < |ts| && !ts[i].used)
  {
    forall i | 0 <= i < |ts| && IsTopic(ts[i], topic)
      ensures FindTopic(ts, topic) == Some(i)
    {
      FoundTopic(ts, depth, i);
    }
    match FindTopic(ts, topic)
    case Some(i) =>
      var ss := ts[i].subs;
      if HasPlace(ts, topic, app) {
        var j := if FindSub(ss, app).Some? then FindSub(ss, app).value else FreeSub(ss).value;
        assert IsSub(ts[i].subs[j], app) || !ts[i].subs[j].used;
      }
    case None =>
      if HasPlace(ts, topic, app) {
        assert !ts[FreeTopic(ts).value].used;
      }
  }

  /** A name too long for its field is stored cut, and the cut name is taken already. */
  predicate Clash(ts: seq<Topic>, topic: string, app: string) {
    match FindTopic(ts, topic)
    case Some(i) => FindSub(ts[i].subs, app).None? && FreeSub(ts[i].subs).Some? && FindSub(ts[i].subs, Cut(app)).Some?
    case None => FreeTopic(ts).Some? && FindTopic(ts, Cut(topic)).Some?
  }

  lemma ShortNamesDoNotClash(ts: seq<Topic>, topic: string, app: string)
    requires |topic| < 32 && |app| < 32
    ensures !Clash(ts, topic, app)
  {
  }

  /** The app joins `t0`, which is topic `i` or what topic `i` becomes. */
  lemma JoinAt(ts: seq<Topic>, depth: nat, i: nat, t0: Topic, app: string, ts': seq<Topic>)
    requires Inv(ts, depth) && i < |ts| && t0.used && |t0.name| < NAME_MAX && t0.subs == ts[i].subs
    requires if ts[i].used then t0 == ts[i] else FindTopic(ts, t0.name).None?
    requires FindSub(t0.subs, app).Some? || FindSub(t0.subs, Cut(app)).None?
    requires ts' == ts[i := Joined(t0, app).0]
    ensures var ok := Joined(t0, app).1;
            && (ok || ts[i].used ==> Inv(ts', depth))
            && (!ts[i].used ==> ok)
            && (ok ==> forall p, a ::
                  QueueOf(ts', p, a) ==
                  if p == t0.name && a == Cut(app) && Within(t0, app).None? then Some([]) else QueueOf(ts, p, a))
  {
    hide Joined, FindSub, SubsOk, Cut, FindTopic;
    var (t, ok) := Joined(t0, app);
    JoinedOk(t0, depth, app);
    if ok {
      Replaced(ts, depth, i, t, t0.name, ts');
      forall p, a
        ensures QueueOf(ts', p, a) ==
                if p == t0.name && a == Cut(app) && Within(t0, app).None? then Some([]) else QueueOf(ts, p, a)
      {
        if p == t0.name {
          if ts[i].used {
            ThisTopic(ts, depth, i, a);
          } else {
            NobodyWithin(ts[i], depth, a);
            assert Within(t0, a) == Within(ts[i], a);
          }
        }
      }
    } else {
      JoinedPlace(t0, app);
      assert ts[i].used ==> ts' == ts;
    }
  }

  lemma SubscribeOk(ts: seq<Topic>, depth: nat, topic: string, app: string)
    requires Inv(ts, depth) && !Clash(ts, topic, app)
    ensures var ts' := Subscribed(ts, topic, app).0;
            && Inv(ts', depth) && Subscribed(ts, topic, app).1 == HasPlace(ts, topic, app)
            && forall p, a :: QueueOf(ts', p, a) ==
                 if HasPlace(ts, topic, app) && p == Cut(topic) && a == Cut(app) && QueueOf(ts, topic, app).None?
                 then Some([]) else QueueOf(ts, p, a)
  {
    hide Joined, FindSub, TopicOk, Cut;
    var r := FindTopic(ts, topic);
    if r.Some? {
      var i := r.value;
      CutShort(ts, depth, i);
      JoinedPlace(ts[i], app);
      if HasPlace(ts, topic, app) {
        JoinAt(ts, depth, i, ts[i], app, Subscribed(ts, topic, app).0);
      } else {
        assert ts[i := ts[i]] == ts;
      }
    } else if FreeTopic(ts).Some? {
      var i := FreeTopic(ts).value;
      Empty(ts[i], depth, app);
      JoinAt(ts, depth, i, ts[i].(used := true, name := Cut(topic)), app, Subscribed(ts, topic, app).0);
      NobodyWithin(ts[i], depth, app);
      assert Within(ts[i].(used := true, name := Cut(topic)), app) == Within(ts[i], app);
    }
  }

  lemma CutShort(ts: seq<Topic>, depth: nat, i: nat)
    requires Inv(ts, depth) && i < |ts|
    ensures |ts[i].name| < NAME_MAX && Cut(ts[i].name) == ts[i].name
  {
  }

  lemma Empty(t: Topic, depth: nat, app: string)
    requires TopicOk(t, depth) && !t.used
    ensures !AnySub(t.subs) && FindSub(t.subs, Cut(app)).None?
  {
    assert forall j :: 0 <= j < |t.subs| ==> !t.subs[j].used;
  }

  /** Subscribing keeps names unique if and only if no stored name is the cut of a longer one asked for. */
  lemma SubscribeKeepsIff(ts: seq<Topic>, depth: nat, topic: string, app: string)
    requires Inv(ts, depth)
    ensures Inv(Subscribed(ts, topic, app).0, depth) <==> !Clash(ts, topic, app)
  {
    if Clash(ts, topic, app) {
      var ts' := Subscribed(ts, topic, app).0;
      var r := FindTopic(ts, topic);
      if r.Some? {
        var j, k := FreeSub(ts[r.value].subs).value, FindSub(ts[r.value].subs, Cut(app)).value;
        var ss := ts'[r.value].subs;
        assert ss[j].used && ss[k].used && ss[j].name == ss[k].name && j != k;
        assert !SubsOk(ss, depth);
      } else {
        var i, k := FreeTopic(ts).value, FindTopic(ts, Cut(topic)).value;
        assert ts'[i].used && ts'[k].used && ts'[i].name == ts'[k].name && i != k;
      }
    } else {
      SubscribeOk(ts, depth, topic, app);
    }
  }

  lemma JoinedPlace(t: Topic, app: string)
    ensures Joined(t, app).1 == (FindSub(t.subs, app).Some? || FreeSub(t.subs).Some?)
    ensures !Joined(t, app).1 ==> Joined(t, app).0 == t
  {
  }

  lemma SettledOk(t: Topic, depth: nat)
    requires |t.subs| >= 1 && SubsOk(t.subs, depth) && t.used && |t.name| < NAME_MAX
    ensures TopicOk(Settled(t), depth) && Settled(t).subs == t.subs
    ensures Settled(t).used ==> Settled(t).name == t.name
    ensures forall a :: Within(Settled(t), a) == Within(t, a)
  {
  }

  lemma LeaveOk(ts: seq<Topic>, depth: nat, topic: string, app: string)
    requires Inv(ts, depth)
    ensures Inv(Left(ts, topic, app), depth)
    ensures forall p, a :: QueueOf(Left(ts, topic, app), p, a) ==
              if p == topic && a == app then None else QueueOf(ts, p, a)
  {
    hide SubsOk, AnySub, Settled, FindTopic, FindSub;
    var r := FindTopic(ts, topic);
    if r.Some? && FindSub(ts[r.value].subs, app).Some? {
      var t := ts[r.value];
      var j := FindSub(t.subs, app).value;
      var t' := t.(subs := t.subs[j := NO_SUB]);
      SubLeft(t, depth, j, app);
      SettledOk(t', depth);
      Replaced(ts, depth, r.value, Settled(t'), topic, Left(ts, topic, app));
      forall a
        ensures QueueOf(Left(ts, topic, app), topic, a) == if a == app then None else QueueOf(ts, topic, a)
      {
        assert QueueOf(ts, topic, a) == Within(t, a);
      }
    } else {
      assert Left(ts, topic, app) == ts && QueueOf(ts, topic, app) == None;
    }
  }

  lemma SubLeft(t: Topic, depth: nat, j: nat, app: string)
    requires SubsOk(t.subs, depth) && j < |t.subs| && IsSub(t.subs[j], app)
    ensures var t' := t.(subs := t.subs[j := NO_SUB]);
            && SubsOk(t'.subs, depth)
            && forall a :: Within(t', a) == if a == app then None else Within(t, a)
  {
    var t' := t.(subs := t.subs[j := NO_SUB]);
    OneSub(t, t', depth, j, app);
    forall k | 0 <= k < |t'.subs|
      ensures !IsSub(t'.subs[k], app)
    {
      assert t.subs[j].name == app;
    }
  }

  /** A queue with room takes the message, a full one drops it. */
  function Taken(q: Option<seq<Msg>>, m: Msg, depth: nat): (r: Option<seq<Msg>>) {
    if q.Some? && |q.value| < depth then Some(q.value + [m]) else q
  }

  lemma OfferOk(t: Topic, depth: nat, m: Msg)
    requires TopicOk(t, depth) && t.used
    ensures var t' := t.(subs := Offered(t.subs, m, depth, |t.subs|));
            TopicOk(t', depth) && forall a :: Within(t', a) == Taken(Within(t, a), m, depth)
  {
    var t' := t.(subs := Offered(t.subs, m, depth, |t.subs|));
    var j :| 0 <= j < |t.subs| && t.subs[j].used;
    assert t'.subs[j].used;
    forall a
      ensures Within(t', a) == Taken(Within(t, a), m, depth)
    {
      var r := FindSub(t.subs, a);
      if r.Some? {
        FoundSub(t'.subs, depth, r.value);
      } else {
        forall k | 0 <= k < |t'.subs|
          ensures !IsSub(t'.subs[k], a)
        {
          assert !IsSub(t.subs[k], a);
        }
      }
    }
  }

  lemma PublishOk(ts: seq<Topic>, depth: nat, topic: string, m: Msg)
    requires Inv(ts, depth)
    ensures Inv(Published(ts, topic, m, depth), depth)
    ensures forall p, a :: QueueOf(Published(ts, topic, m, depth), p, a) ==
              if p == topic then Taken(QueueOf(ts, p, a), m, depth) else QueueOf(ts, p, a)
  {
    hide TopicOk, SubsOk, FindTopic, FindSub, Offered;
    var r := FindTopic(ts, topic);
    if r.Some? {
      OfferOk(ts[r.value], depth, m);
      var t' := ts[r.value].(subs := Offered(ts[r.value].subs, m, depth, |ts[r.value].subs|));
      Replaced(ts, depth, r.value, t', topic, Published(ts, topic, m, depth));
    }
  }

  lemma PopOk(ts: seq<Topic>, depth: nat, topic: string, app: string)
    requires Inv(ts, depth)
    ensures Inv(Popped(ts, topic, app), depth)
    ensures forall p, a :: QueueOf(Popped(ts, topic, app), p, a) ==
              var q := QueueOf(ts, p, a);
              if p == topic && a == app && q.Some? && q.value != [] then Some(q.value[1..]) else q
  {
    hide TopicOk, SubsOk, FindTopic, FindSub;
    var r := FindTopic(ts, topic);
    if r.Some? && FindSub(ts[r.value].subs, app).Some? {
      var t := ts[r.value];
      var j := FindSub(t.subs, app).value;
      var s := t.subs[j];
      if s.queue != [] {
        PoppedSub(t, depth, j, app);
        Replaced(ts, depth, r.value, t.(subs := t.subs[j := s.(queue := s.queue[1..])]), topic, Popped(ts, topic, app));
      }
    }
  }

  lemma PoppedSub(t: Topic, depth: nat, j: nat, app: string)
    requires TopicOk(t, depth) && t.used && j < |t.subs| && IsSub(t.subs[j], app) && t.subs[j].queue != []
    ensures var s := t.subs[j];
            var t' := t.(subs := t.subs[j := s.(queue := s.queue[1..])]);
            && TopicOk(t', depth)
            && forall a :: Within(t', a) == if a == app then Some(s.queue[1..]) else Within(t, a)
  {
    var s := t.subs[j];
    var t' := t.(subs := t.subs[j := s.(queue := s.queue[1..])]);
    assert t'.subs[j].used;
    OneSub(t, t', depth, j, app);
    FoundSub(t'.subs, depth, j);
  }

  lemma CleanOk(t: Topic, depth: nat, app: string)
    requires TopicOk(t, depth) && t.used
    ensures var t' := CleanTopic(t, app);
            && TopicOk(t', depth) && (t'.used ==> t'.name == t.name)
            && forall a :: Within(t', a) == if a == app then None else Within(t, a)
  {
    var ss := Without(t.subs, app, |t.subs|);
    var t1 := t.(subs := ss);
    SettledOk(t1, depth);
    forall a
      ensures Within(t1, a) == if a == app then None else Within(t, a)
    {
      var r := FindSub(t.subs, a);
      if r.Some? && a != app {
        FoundSub(ss, depth, r.value);
      } else {
        forall k | 0 <= k < |ss|
          ensures !IsSub(ss[k], a)
        {
          assert r.None? ==> !IsSub(t.subs[k], a);
        }
      }
    }
  }

  lemma {:induction false} CleanedOk(ts: seq<Topic>, depth: nat, app: string, n: nat)
    requires Inv(ts, depth) && n <= |ts|
    ensures Inv(Cleaned(ts, app, n), depth)
    ensures forall p, a :: a != app ==> QueueOf(Cleaned(ts, app, n), p, a) == QueueOf(ts, p, a)
  {
    hide TopicOk, SubsOk, QueueOf, CleanTopic, FindTopic;
    if n > 0 {
      CleanedOk(ts, depth, app, n - 1);
      var before := Cleaned(ts, app, n - 1);
      var t := ts[n - 1];
      assert before[n - 1] == t;
      if t.used {
        CleanOk(t, depth, app);
        Replaced(before, depth, n - 1, CleanTopic(t, app), t.name, Cleaned(ts, app, n));
        forall p, a | a != app
          ensures QueueOf(Cleaned(ts, app, n), p, a) == QueueOf(before, p, a)
        {
          if p == t.name {
            ThisTopic(before, depth, n - 1, a);
          }
        }
      } else {
        assert CleanTopic(t, app) == t by { UnusedStays(t, app); }
        assert Cleaned(ts, app, n) == before;
      }
    }
  }

  lemma UnusedStays(t: Topic, app: string)
    requires !t.used
    ensures CleanTopic(t, app) == t
  {
  }

  lemma CleanupOk(ts: seq<Topic>, depth: nat, app: string)
    requires Inv(ts, depth)
    ensures Inv(Cleaned(ts, app, |ts|), depth)
    ensures forall p, a :: QueueOf(Cleaned(ts, app, |ts|), p, a) == if a == app then None else QueueOf(ts, p, a)
  {
    CleanedOk(ts, depth, app, |ts|);
    hide FindTopic, FindSub;
    var ts' := Cleaned(ts, app, |ts|);
    forall p
      ensures QueueOf(ts', p, app) == None
    {
      var r := FindTopic(ts', p);
      if r.Some? {
        CleanOk(ts[r.value], depth, app);
        assert Within(ts'[r.value], app) == None;
      }
    }
  }

  // ----- the number of queues a publish grows -----

  /** The names among the first `n` subscribers whose queue has room. */
  ghost function Roomy(ss: seq<Sub>, depth: nat, n: nat): (r: set<string>)
    requires n <= |ss|
  {
    set j | 0 <= j < n && ss[j].used && |ss[j].queue| < depth :: ss[j].name
  }

  lemma {:induction false} TakersCount(ss: seq<Sub>, depth: nat, n: nat)
    requires SubsOk(ss, depth) && n <= |ss|
    ensures Takers(ss, depth, n) == |Roomy(ss, depth, n)|
  {
    if n > 0 {
      TakersCount(ss, depth, n - 1);
      var s := ss[n - 1];
      var before := Roomy(ss, depth, n - 1);
      if s.used && |s.queue| < depth {
        assert Roomy(ss, depth, n) == before + {s.name};
        assert s.name !in before;
      } else {
        assert Roomy(ss, depth, n) == before;
      }
    }
  }

  /** A publish returns how many apps have their queue on that topic grow. */
  lemma DeliveredCount(ts: seq<Topic>, depth: nat, topic: string, grew: set<string>)
    requires Inv(ts, depth)
    requires forall a :: a in grew <==> QueueOf(ts, topic, a).Some? && |QueueOf(ts, topic, a).value| < depth
    ensures Delivered(ts, topic, depth) == |grew|
  {
    var r := FindTopic(ts, topic);
    if r.None? {
      assert grew == {};
    } else {
      hide FindTopic, FindSub;
      var ss := ts[r.value].subs;
      TakersCount(ss, depth, |ss|);
      var roomy := Roomy(ss, depth, |ss|);
      forall a
        ensures a in roomy <==> a in grew
      {
        if a in roomy {
          var j :| 0 <= j < |ss| && ss[j].used && |ss[j].queue| < depth && ss[j].name == a;
          FoundSub(ss, depth, j);
        }
      }
      assert roomy == grew;
    }
  }

  // ----- histories -----

  datatype Action =
    | Subscribe(topic: string, app: string)
    | Unsubscribe(topic: string, app: string)
    | Publish(topic: string, m: Msg)
    | Recv(topic: string, app: string)
    | Cleanup(app: string)

  predicate NamesFit(a: Action) {
    a.Subscribe? ==> |a.topic| < 32 && |a.app| < 32
  }

  function Next(ts: seq<Topic>, a: Action, depth: nat): (r: seq<Topic>) {
    match a
    case Subscribe(p, x) => Subscribed(ts, p, x).0
    case Unsubscribe(p, x) => Left(ts, p, x)
    case Publish(p, m) => Published(ts, p, m, depth)
    case Recv(p, x) => Popped(ts, p, x)
    case Cleanup(x) => Cleaned(ts, x, |ts|)
  }

  /** Since it subscribed: the messages an app's queue accepted and those the app received. */
  datatype Story = Story(accepted: seq<Msg>, received: seq<Msg>)

  /** How one request continues the story of `app` on `topic`; `place` says whether a new subscription fits. */
  function Heard(h: Option<Story>, a: Action, place: bool, topic: string, app: string, depth: nat): (r: Option<Story>) {
    match a
    case Subscribe(p, x) => if p == topic && x == app && h.None? && place then Some(Story([], [])) else h
    case Unsubscribe(p, x) => if p == topic && x == app then None else h
    case Cleanup(x) => if x == app then None else h
    case Publish(p, m) =>
      if p == topic && h.Some? && |h.value.accepted| - |h.value.received| < depth
      then Some(h.value.(accepted := h.value.accepted + [m])) else h
    case Recv(p, x) =>
      if p == topic && x == app && h.Some? && |h.value.received| < |h.value.accepted|
      then Some(h.value.(received := h.value.received + [h.value.accepted[|h.value.received|]])) else h
  }

  ghost predicate Start(ts: seq<Topic>, depth: nat) {
    forall i :: 0 <= i < |ts| ==>
      !ts[i].used && ts[i].name == "" && |ts[i].subs| >= 1
      && forall j :: 0 <= j < |ts[i].subs| ==> ts[i].subs[j] == NO_SUB
  }

  ghost predicate Run(states: seq<seq<Topic>>, actions: seq<Action>, depth: nat) {
    && |states| == |actions| + 1 && Start(states[0], depth)
    && forall n :: 0 <= n < |actions| ==> NamesFit(actions[n]) && states[n + 1] == Next(states[n], actions[n], depth)
  }

  function Placed(ts: seq<Topic>, a: Action): (r: bool) { a.Subscribe? && HasPlace(ts, a.topic, a.app) }

  function StoryOf(states: seq<seq<Topic>>, actions: seq<Action>, n: nat, topic: string, app: string, depth: nat): (r: Option<Story>)
    requires n <= |actions| < |states|
  {
    if n == 0 then None
    else
      Heard(StoryOf(states, actions, n - 1, topic, app, depth), actions[n - 1], Placed(states[n - 1], actions[n - 1]),
            topic, app, depth)
  }

  /** The queue holds what was accepted and not yet received, in order. */
  ghost predicate Tells(h: Option<Story>, q: Option<seq<Msg>>) {
    (h.Some? <==> q.Some?) && (h.Some? ==> h.value.accepted == h.value.received + q.value)
  }

  lemma NextOk(ts: seq<Topic>, a: Action, depth: nat, topic: string, app: string, h: Option<Story>)
    requires Inv(ts, depth) && NamesFit(a) && Tells(h, QueueOf(ts, topic, app))
    ensures Inv(Next(ts, a, depth), depth)
    ensures Tells(Heard(h, a, Placed(ts, a), topic, app, depth), QueueOf(Next(ts, a, depth), topic, app))
  {
    hide Inv, QueueOf, Subscribed, Left, Published, Popped, Cleaned, HasPlace, Clash;
    match a
    case Subscribe(p, x) =>
      ShortNamesDoNotClash(ts, p, x);
      SubscribeOk(ts, depth, p, x);
    case Unsubscribe(p, x) => LeaveOk(ts, depth, p, x);
    case Publish(p, m) => PublishOk(ts, depth, p, m);
    case Recv(p, x) => PopOk(ts, depth, p, x);
    case Cleanup(x) => CleanupOk(ts, depth, x);
  }

  /**
   Main result, over any history: names stay unique, a topic is in use exactly while it has a
   subscriber, and every queue holds, in order and once, what was published since the app
   subscribed, found room, and was not received yet.
   */
  lemma {:induction false} RunOk(states: seq<seq<Topic>>, actions: seq<Action>, depth: nat, n: nat, topic: string, app: string)
    requires Run(states, actions, depth) && n <= |actions|
    ensures Inv(states[n], depth)
    ensures Tells(StoryOf(states, actions, n, topic, app, depth), QueueOf(states[n], topic, app))
  {
    hide Next, Heard, NamesFit, Placed;
    if n == 0 {
      StartOk(states[0], depth, topic, app);
    } else {
      hide Inv, Tells;
      RunOk(states, actions, depth, n - 1, topic, app);
      NextOk(states[n - 1], actions[n - 1], depth, topic, app, StoryOf(states, actions, n - 1, topic, app, depth));
    }
  }

  lemma StartOk(ts: seq<Topic>, depth: nat, topic: string, app: string)
    requires Start(ts, depth)
    ensures Inv(ts, depth) && QueueOf(ts, topic, app) == None
  {
    forall k | 0 <= k < |ts|
      ensures !IsTopic(ts[k], topic)
    {
    }
  }

  /** From start-up, two topics whose long names begin alike end up in the table under one name. */
  lemma LongNamesCollide(ts: seq<Topic>, depth: nat, first: string, second: string, app: string)
    requires Start(ts, depth) && |ts| >= 2
    requires |first| >= 32 && |second| >= 32 && first[..31] == second[..31]
    ensures var ts1 := Subscribed(ts, first, app).0;
            Inv(ts1, depth) && Clash(ts1, second, app) && !Inv(Subscribed(ts1, second, app).0, depth)
  {
    hide Joined, SubsOk, Within;
    StartOk(ts, depth, first, app);
    var i := FreeTopic(ts).value;
    SubscribeOk(ts, depth, first, app);
    var ts1 := Subscribed(ts, first, app).0;
    JoinsNew(ts[i].(used := true, name := Cut(first)), app);
    assert IsTopic(ts1[i], Cut(second));
    assert !ts1[1 - i].used by { assert !ts[1 - i].used; }
    assert FindTopic(ts1, second).None?;
    SubscribeKeepsIff(ts1, depth, second, app);
  }

  lemma JoinsNew(t: Topic, app: string)
    ensures Joined(t, app).0.used == t.used && Joined(t, app).0.name == t.name
  {
  }

  lemma TwoLongNames(ts: seq<Topic>, depth: nat)
    requires Start(ts, depth) && |ts| >= 2
    ensures var stem := seq(31, i => 'a');
            var ts1 := Subscribed(ts, stem + "b", "app").0;
            Inv(ts1, depth) && !Inv(Subscribed(ts1, stem + "c", "app").0, depth)
  {
    var stem := seq(31, i => 'a');
    assert Cut(stem + "b") == stem == Cut(stem + "c");
    LongNamesCollide(ts, depth, stem + "b", stem + "c", "app");
  }
}
