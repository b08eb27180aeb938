/** One protocol's mails on their way from the analysis threads through the monitor thread to the
    log threads: `monitor_push`, `monitor_callback`, `log_push`, `log_callback`, cut into the steps
    that hand a mail from one owner to the next. The two protocols share no queue. */
module Pipeline {
  import opened Wrappers
  import opened Mail

  const QUEUE_ITEMS := 127 // an Acq of MONITOR_MSG_LEN = LOG_MSG_LEN = 128 cells holds one item less

  /** Inside `monitor_push`: the mail and how many more tries it gets. */
  datatype PushPc = NotPushing | Pushing(mail: Mail, tries: nat)

  datatype MonitorPc =
    | Idle
    | Judging(mail: Mail)
    | Logging(mail: Mail, route: int)  // in the retry loop of log_push
    | Discarding(mail: Mail)           // about to release a mail nobody asked for

  datatype LoggerPc = Free | Recording(mail: Mail)

  datatype Pipe = Pipe(
    pushers: seq<PushPc>,
    monitorQueue: seq<Mail>,
    monitor: MonitorPc,
    logQueues: seq<seq<Mail>>,   // by enum TYPE
    loggers: seq<LoggerPc>,
    pushed: seq<Mail>,           // mails monitor_push was called with
    accepted: seq<Mail>,         // mails the monitor queue took
    killed: seq<Mail>,           // mails an analysis thread put on the KILL queue
    dropped: seq<Mail>,          // mails monitor_push gave up on
    discarded: seq<Mail>,        // mails the monitor thread released
    recorded: seq<seq<Mail>>)    // mails each log thread recorded and released

  datatype Step =
    | PushStart(i: nat, mail: Mail)
    | PushTry(i: nat)
    | KillPush(mail: Mail)
    | MonitorDeq
    | MonitorJudge
    | MonitorLog
    | MonitorDiscard
    | LogDeq(t: nat)
    | LogRecord(t: nat)

  ghost predicate Shape(p: Pipe) {
    |p.logQueues| == 4 && |p.loggers| == 4 && |p.recorded| == 4
  }

  ghost predicate Enabled(p: Pipe, st: Step) {
    Shape(p) &&
    match st
    case PushStart(i, mail) => i < |p.pushers| && p.pushers[i].NotPushing?
    case PushTry(i) => i < |p.pushers| && p.pushers[i].Pushing?
    case KillPush(mail) => |p.logQueues[KILL]| < QUEUE_ITEMS
    case MonitorDeq => p.monitor.Idle? && p.monitorQueue != []
    case MonitorJudge => p.monitor.Judging?
    case MonitorLog => p.monitor.Logging? && 0 <= p.monitor.route <= 3
    case MonitorDiscard => p.monitor.Discarding?
    case LogDeq(t) => t < 4 && p.loggers[t].Free? && p.logQueues[t] != []
    case LogRecord(t) => t < 4 && p.loggers[t].Recording?
  }

  ghost function After(f: Filters, p: Pipe, st: Step): Pipe
    requires Enabled(p, st)
  {
    match st
    case PushStart(i, mail) => p.(pushers := p.pushers[i := Pushing(mail, 2)], pushed := p.pushed + [mail])
    case PushTry(i) =>
      var mail := p.pushers[i].mail;
      if |p.monitorQueue| < QUEUE_ITEMS then
        p.(pushers := p.pushers[i := NotPushing], monitorQueue := p.monitorQueue + [mail],
           accepted := p.accepted + [mail])
      else if p.pushers[i].tries > 1 then p.(pushers := p.pushers[i := Pushing(mail, p.pushers[i].tries - 1)])
      else p.(pushers := p.pushers[i := NotPushing], dropped := p.dropped + [mail])
    case KillPush(mail) =>
      p.(logQueues := p.logQueues[KILL := p.logQueues[KILL] + [mail]], killed := p.killed + [mail])
    case MonitorDeq => p.(monitor := Judging(p.monitorQueue[0]), monitorQueue := p.monitorQueue[1..])
    case MonitorJudge =>
      var mail := p.monitor.mail;
      p.(monitor := if Route(f, mail) == 0 then Discarding(mail) else Logging(mail, Route(f, mail)))
    case MonitorLog =>
      var mail, t := p.monitor.mail, p.monitor.route;
      if |p.logQueues[t]| < QUEUE_ITEMS
      then p.(monitor := Idle, logQueues := p.logQueues[t := p.logQueues[t] + [mail]])
      else p
    case MonitorDiscard => p.(monitor := Idle, discarded := p.discarded + [p.monitor.mail])
    case LogDeq(t) =>
      p.(loggers := p.loggers[t := Recording(p.logQueues[t][0])], logQueues := p.logQueues[t := p.logQueues[t][1..]])
    case LogRecord(t) =>
      p.(loggers := p.loggers[t := Free], recorded := p.recorded[t := p.recorded[t] + [p.loggers[t].mail]])
  }

  ghost predicate Initial(p: Pipe) {
    && Shape(p) && p.monitor.Idle?
    && p.monitorQueue == p.pushed == p.accepted == p.killed == p.dropped == p.discarded == []
    && (forall i :: 0 <= i < |p.pushers| ==> p.pushers[i].NotPushing?)
    && forall t :: 0 <= t < 4 ==> p.logQueues[t] == p.recorded[t] == [] && p.loggers[t].Free?
  }

  // ------------------------------------------------------------------------ ownership

  /** The mails of ms routed to t, in order. */
  ghost function Routed(f: Filters, ms: seq<Mail>, t: int): seq<Mail> {
    if ms == [] then []
    else Routed(f, ms[..|ms| - 1], t) + if Route(f, ms[|ms| - 1]) == t then [ms[|ms| - 1]] else []
  }

  ghost function InMonitor(f: Filters, p: Pipe, t: int): seq<Mail> {
    if p.monitor.Idle? || Route(f, p.monitor.mail) != t then [] else [p.monitor.mail]
  }

  ghost function InLogger(p: Pipe, t: int): seq<Mail>
    requires Shape(p) && 0 <= t < 4
  {
    if p.loggers[t].Free? then [] else [p.loggers[t].mail]
  }

  /** What a log thread and its queue hold or have recorded, oldest first. */
  ghost function Logged(p: Pipe, t: int): seq<Mail>
    requires Shape(p) && 0 <= t < 4
  {
    p.recorded[t] + (InLogger(p, t) + p.logQueues[t])
  }

  /** For every verdict: the accepted mails with that verdict, in order, are those recorded, then the one
      its log thread has, those in its queue, the one the monitor has, and those still to be judged. */
  ghost predicate Inv(f: Filters, p: Pipe) {
    && Shape(p)
    && (p.monitor.Logging? ==> p.monitor.route == Route(f, p.monitor.mail) != 0)
    && (p.monitor.Discarding? ==> Route(f, p.monitor.mail) == 0)
    && p.killed == Logged(p, KILL)
    && Routed(f, p.accepted, 0) == p.discarded + (InMonitor(f, p, 0) + Routed(f, p.monitorQueue, 0))
    && forall t :: 1 <= t < 4 ==>
      Routed(f, p.accepted, t) == Logged(p, t) + (InMonitor(f, p, t) + Routed(f, p.monitorQueue, t))
  }

  lemma RoutedAppend(f: Filters, ms: seq<Mail>, m: Mail, t: int)
    ensures Routed(f, ms + [m], t) == Routed(f, ms, t) + if Route(f, m) == t then [m] else []
  {
    assert (ms + [m])[..|ms|] == ms;
  }

  lemma {:induction false} RoutedFirst(f: Filters, ms: seq<Mail>, t: int)
    requires ms != []
    ensures Routed(f, ms, t) == (if Route(f, ms[0]) == t then [ms[0]] else []) + Routed(f, ms[1..], t)
  {
    if |ms| == 1 {
      assert ms[..0] == [] && ms[1..] == [];
    } else {
      var i := ms[..|ms| - 1];
      RoutedFirst(f, i, t);
      assert i[1..] == ms[1..][..|ms[1..]| - 1];
    }
  }

  /** What a step adds to the log side of queue t; nothing a log thread does changes the order or the content. */
  ghost function Added(f: Filters, p: Pipe, st: Step, t: int): seq<Mail>
    requires Enabled(p, st) && 0 <= t < 4
  {
    if st.KillPush? && t == KILL then [st.mail]
    else if st.MonitorLog? && p.monitor.route == t && |p.logQueues[t]| < QUEUE_ITEMS then [p.monitor.mail]
    else []
  }

  lemma LoggedStep(f: Filters, p: Pipe, st: Step, t: int)
    requires Enabled(p, st) && 0 <= t < 4
    ensures Shape(After(f, p, st))
    ensures Logged(After(f, p, st), t) == Logged(p, t) + Added(f, p, st, t)
  {
    var q := After(f, p, st);
    if (st.KillPush? && t == KILL) || (st.MonitorLog? && p.monitor.route == t && |p.logQueues[t]| < QUEUE_ITEMS) {
      assert q.logQueues[t] == p.logQueues[t] + Added(f, p, st, t);
    } else if st.LogDeq? && st.t == t {
      assert p.logQueues[t] == [p.logQueues[t][0]] + q.logQueues[t];
    } else if st.LogRecord? && st.t == t {
      assert q.recorded[t] == p.recorded[t] + InLogger(p, t);
    }
  }

  /** What the monitor has and will have of verdict t, and what has entered with it. */
  ghost function Ahead(f: Filters, p: Pipe, t: int): seq<Mail> {
    InMonitor(f, p, t) + Routed(f, p.monitorQueue, t)
  }

  ghost function Left(f: Filters, p: Pipe, st: Step, t: int): seq<Mail>
    requires Enabled(p, st) && 0 <= t < 4
  {
    if st.MonitorDiscard? && t == 0 then [p.monitor.mail]
    else if st.MonitorLog? && t != KILL then Added(f, p, st, t)
    else []
  }

  ghost function Entered(f: Filters, p: Pipe, st: Step, t: int): seq<Mail>
    requires Enabled(p, st) && 0 <= t < 4
  {
    if st.PushTry? && |p.monitorQueue| < QUEUE_ITEMS && Route(f, p.pushers[st.i].mail) == t
    then [p.pushers[st.i].mail] else []
  }

  lemma Reassociate<T>(a: seq<T>, b: seq<T>, c: seq<T>)
    ensures a + (b + c) == (a + b) + c
    ensures a + [] == a
  {
  }

  lemma MonitorUnmoved(f: Filters, p: Pipe, q: Pipe, t: int)
    requires p.monitor == q.monitor
    ensures InMonitor(f, p, t) == InMonitor(f, q, t)
  {
  }

  lemma PushAhead(f: Filters, p: Pipe, st: Step, t: int)
    requires Enabled(p, st) && 0 <= t < 4 && st.PushTry?
    ensures Ahead(f, After(f, p, st), t) == Ahead(f, p, t) + Entered(f, p, st, t)
    ensures Routed(f, After(f, p, st).accepted, t) == Routed(f, p.accepted, t) + Entered(f, p, st, t)
  {
    hide Route, InMonitor, Routed, Logged;
    var mail := p.pushers[st.i].mail;
    RoutedAppend(f, p.monitorQueue, mail, t);
    RoutedAppend(f, p.accepted, mail, t);
    Reassociate(InMonitor(f, p, t), Routed(f, p.monitorQueue, t), if Route(f, mail) == t then [mail] else []);
    MonitorUnmoved(f, p, After(f, p, st), t);
  }

  lemma DeqAhead(f: Filters, p: Pipe, st: Step, t: int)
    requires Enabled(p, st) && 0 <= t < 4 && st.MonitorDeq?
    ensures Ahead(f, After(f, p, st), t) == Ahead(f, p, t)
  {
    RoutedFirst(f, p.monitorQueue, t);
    hide Route, Routed, Logged;
  }

  lemma MonitorAhead(f: Filters, p: Pipe, st: Step, t: int)
    requires Inv(f, p) && Enabled(p, st) && 0 <= t < 4 && !st.PushTry?
    ensures Left(f, p, st, t) + Ahead(f, After(f, p, st), t) == Ahead(f, p, t)
  {
    hide Route, Routed, Logged;
    if st.MonitorDeq? {
      DeqAhead(f, p, st, t);
    }
  }

  lemma AheadStep(f: Filters, p: Pipe, st: Step, t: int)
    requires Inv(f, p) && Enabled(p, st) && 0 <= t < 4
    ensures Left(f, p, st, t) + Ahead(f, After(f, p, st), t) == Ahead(f, p, t) + Entered(f, p, st, t)
    ensures Routed(f, After(f, p, st).accepted, t) == Routed(f, p.accepted, t) + Entered(f, p, st, t)
  {
    if st.PushTry? {
      PushAhead(f, p, st, t);
    } else {
      MonitorAhead(f, p, st, t);
    }
  }

  lemma Regroup<T>(a: seq<T>, x: seq<T>, b: seq<T>, c: seq<T>, y: seq<T>)
    requires x + b == c + y
    ensures (a + x) + b == (a + c) + y
  {
    assert (a + x) + b == a + (x + b);
    assert (a + c) + y == a + (c + y);
  }

  lemma StepKeeps(f: Filters, p: Pipe, st: Step)
    requires Inv(f, p) && Enabled(p, st)
    ensures Inv(f, After(f, p, st))
  {
    hide Route, Routed, Logged, InMonitor;
    var q := After(f, p, st);
    LoggedStep(f, p, st, KILL);
    AheadStep(f, p, st, 0);
    assert q.discarded == p.discarded + Left(f, p, st, 0);
    Regroup(p.discarded, Left(f, p, st, 0), Ahead(f, q, 0), Ahead(f, p, 0), Entered(f, p, st, 0));
    forall t | 1 <= t < 4 ensures Routed(f, q.accepted, t) == Logged(q, t) + Ahead(f, q, t) {
      LoggedStep(f, p, st, t);
      AheadStep(f, p, st, t);
      Regroup(Logged(p, t), Left(f, p, st, t), Ahead(f, q, t), Ahead(f, p, t), Entered(f, p, st, t));
    }
  }

  ghost function Exec(f: Filters, p: Pipe, sts: seq<Step>): Option<Pipe> {
    if sts == [] then Some(p)
    else
      var m := |sts| - 1;
      var q := Exec(f, p, sts[..m]);
      if q.Some? && Enabled(q.value, sts[m]) then Some(After(f, q.value, sts[m])) else None
  }

  /** Over every interleaving, each accepted mail is accounted for, in order, under its own verdict. */
  lemma {:induction false} RunKeeps(f: Filters, p: Pipe, sts: seq<Step>)
    requires Initial(p) && Exec(f, p, sts).Some?
    ensures Inv(f, Exec(f, p, sts).value)
    decreases |sts|
  {
    if sts != [] {
      var m := |sts| - 1;
      RunKeeps(f, p, sts[..m]);
      StepKeeps(f, Exec(f, p, sts[..m]).value, sts[m]);
    }
  }

  // -------------------------------------------------------------------- consequences

  ghost function Times(m: Mail, ms: seq<Mail>): nat {
    multiset(ms)[m]
  }

  lemma TimesConcat(m: Mail, a: seq<Mail>, b: seq<Mail>)
    ensures Times(m, a + b) == Times(m, a) + Times(m, b)
  {
  }

  lemma {:induction false} RoutedTimes(f: Filters, ms: seq<Mail>, t: int, m: Mail)
    ensures Times(m, Routed(f, ms, t)) == if Route(f, m) == t then Times(m, ms) else 0
  {
    if ms != [] {
      var k := |ms| - 1;
      RoutedTimes(f, ms[..k], t, m);
      assert ms == ms[..k] + [ms[k]];
      TimesConcat(m, ms[..k], [ms[k]]);
      TimesConcat(m, Routed(f, ms[..k], t), if Route(f, ms[k]) == t then [ms[k]] else []);
    }
  }

  /** How often m has been released by the owner its verdict names, or is on its way there. */
  ghost function Places(f: Filters, p: Pipe, m: Mail, t: int): nat
    requires Shape(p) && 0 <= t < 4
  {
    Times(m, if t == 0 then p.discarded else p.recorded[t] + (InLogger(p, t) + p.logQueues[t]))
  }

  /** Conservation: a mail has been released, is in a log queue, in a log thread's hands, in the monitor's
      hands or in its queue exactly as often, all places together, as it was accepted. So a mail
      accepted once is in one place only and is released at most once, by the owner its verdict names. */
  lemma EveryMailIsSomewhereOnce(f: Filters, p: Pipe, m: Mail)
    requires Inv(f, p)
    ensures Times(m, p.accepted) == Places(f, p, m, Route(f, m))
      + (if p.monitor.Idle? || p.monitor.mail != m then 0 else 1) + Times(m, p.monitorQueue)
    ensures forall t :: 0 <= t < 4 && t != Route(f, m) ==> Places(f, p, m, t) == 0
  {
    forall t | 0 <= t < 4
      ensures (if Route(f, m) == t then Times(m, p.accepted) else 0) ==
        Places(f, p, m, t) + Times(m, InMonitor(f, p, t)) + if Route(f, m) == t then Times(m, p.monitorQueue) else 0
    {
      RoutedTimes(f, p.accepted, t, m);
      RoutedTimes(f, p.monitorQueue, t, m);
      TimesConcat(m, InMonitor(f, p, t), Routed(f, p.monitorQueue, t));
      TimesConcat(m, if t == 0 then p.discarded else Logged(p, t), InMonitor(f, p, t) + Routed(f, p.monitorQueue, t));
    }
    assert Times(m, InMonitor(f, p, Route(f, m))) == if p.monitor.Idle? || p.monitor.mail != m then 0 else 1;
  }

  lemma {:induction false} RoutedMembers(f: Filters, ms: seq<Mail>, t: int, m: Mail)
    ensures m in Routed(f, ms, t) <==> m in ms && Route(f, m) == t
  {
    if ms != [] {
      var k := |ms| - 1;
      RoutedMembers(f, ms[..k], t, m);
      assert ms == ms[..k] + [ms[k]];
    }
  }

  /** Whatever a monitor-fed log thread records carries the verdict that queue is for, and
      whatever the monitor releases itself has neither a keyword nor the spam mark. */
  lemma VerdictsAreObeyed(f: Filters, p: Pipe, t: int, m: Mail)
    requires Inv(f, p)
    ensures 1 <= t < 4 && m in Logged(p, t) ==> m in p.accepted && Route(f, m) == t
    ensures m in p.discarded ==> m in p.accepted && !HasHit(f, m) && !IsSpam(f, m)
  {
    RoutedMembers(f, p.accepted, t, m);
    RoutedMembers(f, p.accepted, 0, m);
  }

  /** Once everything has drained, each log holds exactly the mails of its verdict, in arrival order. */
  lemma DrainedIsSorted(f: Filters, p: Pipe)
    requires Inv(f, p) && p.monitorQueue == [] && p.monitor.Idle?
    requires forall t :: 0 <= t < 4 ==> p.logQueues[t] == [] && p.loggers[t].Free?
    ensures p.recorded[KILL] == p.killed && p.discarded == Routed(f, p.accepted, 0)
    ensures forall t :: 1 <= t < 4 ==> p.recorded[t] == Routed(f, p.accepted, t)
  {
  }

  // -------------------------------------------------------------------- giving up

  ghost function Held(pc: PushPc, m: Mail): nat {
    if pc.Pushing? && pc.mail == m then 1 else 0
  }

  /** How many analysis threads are pushing m. */
  ghost function InPush(pushers: seq<PushPc>, m: Mail): nat {
    if pushers == [] then 0 else InPush(pushers[..|pushers| - 1], m) + Held(pushers[|pushers| - 1], m)
  }

  lemma {:induction false} InPushAfter(pushers: seq<PushPc>, i: nat, pc: PushPc, m: Mail)
    requires i < |pushers|
    ensures InPush(pushers[i := pc], m) + Held(pushers[i], m) == InPush(pushers, m) + Held(pc, m)
  {
    hide Held;
    var k := |pushers| - 1;
    var front, after := pushers[..k], pushers[i := pc];
    assert after[..k] == if i == k then front else front[i := pc];
    if i < k {
      InPushAfter(front, i, pc, m);
    }
  }

  ghost predicate PushesOf(p: Pipe, m: Mail) {
    Times(m, p.pushed) == Times(m, p.accepted) + Times(m, p.dropped) + InPush(p.pushers, m)
  }

  lemma {:induction false} NobodyPushes(pushers: seq<PushPc>, m: Mail)
    requires forall i :: 0 <= i < |pushers| ==> pushers[i].NotPushing?
    ensures InPush(pushers, m) == 0
  {
    if pushers != [] {
      NobodyPushes(pushers[..|pushers| - 1], m);
    }
  }

  lemma PushesStep(f: Filters, p: Pipe, st: Step, m: Mail)
    requires PushesOf(p, m) && Enabled(p, st)
    ensures PushesOf(After(f, p, st), m)
  {
    var q := After(f, p, st);
    hide Route, Times, InPush;
    if st.PushStart? {
      InPushAfter(p.pushers, st.i, q.pushers[st.i], m);
      TimesAppend(m, p.pushed, st.mail);
    } else if st.PushTry? {
      InPushAfter(p.pushers, st.i, q.pushers[st.i], m);
      TimesAppend(m, p.accepted, p.pushers[st.i].mail);
      TimesAppend(m, p.dropped, p.pushers[st.i].mail);
    }
  }

  lemma TimesAppend(m: Mail, ms: seq<Mail>, last: Mail)
    ensures Times(m, ms + [last]) == Times(m, ms) + if last == m then 1 else 0
  {
  }

  /** Every mail `monitor_push` was called with was accepted, was dropped, or is still being pushed, all as
      often together as it was called with it. */
  lemma {:induction false} PushedIsAccountedFor(f: Filters, p: Pipe, sts: seq<Step>, m: Mail)
    requires Initial(p) && Exec(f, p, sts).Some?
    ensures var q := Exec(f, p, sts).value;
      Times(m, q.pushed) == Times(m, q.accepted) + Times(m, q.dropped) + InPush(q.pushers, m)
    decreases |sts|
  {
    if sts == [] {
      NobodyPushes(p.pushers, m);
    } else {
      var k := |sts| - 1;
      PushedIsAccountedFor(f, p, sts[..k], m);
      PushesStep(f, Exec(f, p, sts[..k]).value, sts[k], m);
    }
  }

  /** How often thread i, since it began its last push, has found the monitor queue full. */
  ghost function FullTries(f: Filters, p: Pipe, sts: seq<Step>, i: nat): nat
    requires Exec(f, p, sts).Some?
  {
    if sts == [] then 0
    else
      var k := |sts| - 1;
      var before := FullTries(f, p, sts[..k], i);
      if sts[k].PushStart? && sts[k].i == i then 0
      else if sts[k].PushTry? && sts[k].i == i && |Exec(f, p, sts[..k]).value.monitorQueue| >= QUEUE_ITEMS
      then before + 1
      else before
  }

  lemma {:induction false} TriesLeft(f: Filters, p: Pipe, sts: seq<Step>, i: nat)
    requires Initial(p) && Exec(f, p, sts).Some? && i < |p.pushers|
    ensures var q := Exec(f, p, sts).value;
      |q.pushers| == |p.pushers|
      && (q.pushers[i].Pushing? ==> q.pushers[i].tries + FullTries(f, p, sts, i) == 2 && q.pushers[i].tries >= 1)
    decreases |sts|
  {
    if sts != [] {
      TriesLeft(f, p, sts[..|sts| - 1], i);
    }
  }

  lemma {:induction false} PusherCount(f: Filters, p: Pipe, sts: seq<Step>)
    requires Exec(f, p, sts).Some?
    ensures |Exec(f, p, sts).value.pushers| == |p.pushers|
    decreases |sts|
  {
    if sts != [] {
      PusherCount(f, p, sts[..|sts| - 1]);
    }
  }

  lemma {:induction false} QueueBound(f: Filters, p: Pipe, sts: seq<Step>)
    requires Initial(p) && Exec(f, p, sts).Some?
    ensures |Exec(f, p, sts).value.monitorQueue| <= QUEUE_ITEMS
    decreases |sts|
  {
    if sts != [] {
      QueueBound(f, p, sts[..|sts| - 1]);
    }
  }

  /** A mail is given up on by the second try that finds the queue full, and in no other way; a try that finds
      room hands it over. */
  lemma DroppedIffFullTwice(f: Filters, p: Pipe, sts: seq<Step>, st: Step)
    requires Initial(p) && Exec(f, p, sts).Some? && Enabled(Exec(f, p, sts).value, st)
    ensures Exec(f, p, sts + [st]) == Some(After(f, Exec(f, p, sts).value, st))
    ensures var q, r := Exec(f, p, sts).value, After(f, Exec(f, p, sts).value, st);
      && r.dropped == q.dropped +
        (if st.PushTry? && |q.monitorQueue| == QUEUE_ITEMS && FullTries(f, p, sts + [st], st.i) == 2
         then [q.pushers[st.i].mail] else [])
      && r.accepted == q.accepted +
        if st.PushTry? && |q.monitorQueue| < QUEUE_ITEMS then [q.pushers[st.i].mail] else []
  {
    assert (sts + [st])[..|sts|] == sts;
    QueueBound(f, p, sts);
    if st.PushTry? {
      PusherCount(f, p, sts);
      TriesLeft(f, p, sts, st.i);
    }
  }
}
