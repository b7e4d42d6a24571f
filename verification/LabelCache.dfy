/**
 The label cache of internal/nri/namespace.go under concurrent lookups: every
 interleaving of cache reads, attempts, answers of the API server and cache
 writes is a run of this step machine. The server's labels are a function of
 namespace and time.
 */
module LabelCache {
  import opened Options
  import opened NsLookup

  type Server = (string, nat) -> Labels

  /** A lookup in progress: an attempt since `start`, or a successful one whose labels are yet to be stored. */
  datatype Call = Trying(ns: string, start: nat) | Fetched(ns: string, labels: Labels, at: nat)

  datatype Reply = Reply(ns: string, labels: Labels, at: nat)

  /** `replies` are the answers returned without error. */
  datatype State = State(now: nat, entries: map<string, Entry>, calls: map<nat, Call>, replies: seq<Reply>)

  const INIT := State(0, map[], map[], [])

  datatype Event =
    | Tick(d: nat)
    | Hit(ns: string)
    | Begin(id: nat, ns: string)
    | Served(id: nat, moment: nat)
    | Retry(id: nat)
    | Fails(id: nat)
    | Store(id: nat)

  /** An attempt's answer is the server's at some moment since it began, and it comes within the attempt's timeout. */
  predicate Enabled(s: State, e: Event) {
    match e
    case Tick(_) => true
    case Hit(ns) => Cached(s.entries, ns, s.now).Some?
    case Begin(id, ns) => id !in s.calls && Cached(s.entries, ns, s.now).None?
    case Served(id, m) =>
      id in s.calls && s.calls[id].Trying? && s.calls[id].start <= m <= s.now <= s.calls[id].start + ATTEMPT_TIMEOUT
    case Retry(id) => id in s.calls && s.calls[id].Trying?
    case Fails(id) => id in s.calls && s.calls[id].Trying?
    case Store(id) => id in s.calls && s.calls[id].Fetched?
  }

  function Next(s: State, e: Event, server: Server): State
    requires Enabled(s, e)
  {
    match e
    case Tick(d) => s.(now := s.now + d)
    case Hit(ns) => s.(replies := s.replies + [Reply(ns, s.entries[ns].labels, s.now)])
    case Begin(id, ns) => s.(calls := s.calls[id := Trying(ns, s.now)])
    case Served(id, m) =>
      var ns := s.calls[id].ns;
      s.(calls := s.calls[id := Fetched(ns, server(ns, m), s.now)])
    case Retry(id) => s.(calls := s.calls[id := Trying(s.calls[id].ns, s.now)])
    case Fails(id) => s.(calls := s.calls - {id})
    case Store(id) =>
      var c := s.calls[id];
      s.(calls := s.calls - {id}, entries := s.entries[c.ns := Entry(c.labels, s.now)],
         replies := s.replies + [Reply(c.ns, c.labels, s.now)])
  }

  /** What a step does to the cache and the answers: only a successful lookup stores, and every hit and store is
      answered. */
  lemma StepEffects(s: State, e: Event, server: Server)
    requires Enabled(s, e)
    ensures var t := Next(s, e, server);
            match e
            case Hit(ns) =>
              && t.entries == s.entries && ns in s.entries
              && t.replies == s.replies + [Reply(ns, s.entries[ns].labels, s.now)]
            case Store(id) =>
              && s.calls[id].Fetched? && id !in t.calls
              && t.entries == s.entries[s.calls[id].ns := Entry(s.calls[id].labels, s.now)]
              && t.replies == s.replies + [Reply(s.calls[id].ns, s.calls[id].labels, s.now)]
            case Begin(id, ns) =>
              t.entries == s.entries && t.replies == s.replies && t.calls == s.calls[id := Trying(ns, s.now)]
            case Retry(id) =>
              && t.entries == s.entries && t.replies == s.replies
              && t.calls == s.calls[id := Trying(s.calls[id].ns, s.now)]
            case _ => t.entries == s.entries && t.replies == s.replies
  {
  }

  /** No lookup for the namespace stores anything in this run. */
  ghost predicate NoStore(s: State, es: seq<Event>, server: Server, delay: nat, ns: string)
    requires Run(s, es, server, delay)
    decreases |es|
  {
    es == [] || (&& (es[0].Store? ==> s.calls[es[0].id].ns != ns)
                 && NoStore(Next(s, es[0], server), es[1..], server, delay, ns))
  }

  /**
   The cache does its work: labels stored at some time answer every question for
   the namespace until a minute later, without a lookup, whatever the lookups for
   other namespaces do, fail or retry in between; and from then on none.
   */
  lemma {:induction false} StoredAnswers(s: State, es: seq<Event>, server: Server, delay: nat, ns: string)
    requires ns in s.entries && Run(s, es, server, delay) && NoStore(s, es, server, delay, ns)
    ensures var t := End(s, es, server, delay);
            && ns in t.entries && t.entries[ns] == s.entries[ns]
            && (Enabled(t, Hit(ns)) <==> t.now <= s.entries[ns].fetched + 60_000)
            && (Enabled(t, Hit(ns)) ==>
                  Next(t, Hit(ns), server).replies == t.replies + [Reply(ns, s.entries[ns].labels, t.now)])
    decreases |es|
  {
    hide Prompt;
    if es != [] {
      StoredAnswers(Next(s, es[0], server), es[1..], server, delay, ns);
    }
  }

  /** Labels are stored within `delay` of their arrival. */
  ghost predicate Prompt(s: State, e: Event, delay: nat) {
    e.Tick? ==> forall id :: id in s.calls && s.calls[id].Fetched? ==> s.now + e.d <= s.calls[id].at + delay
  }

  ghost predicate Run(s: State, es: seq<Event>, server: Server, delay: nat)
    decreases |es|
  {
    es == [] || (Enabled(s, es[0]) && Prompt(s, es[0], delay) && Run(Next(s, es[0], server), es[1..], server, delay))
  }

  function End(s: State, es: seq<Event>, server: Server, delay: nat): State
    requires Run(s, es, server, delay)
    decreases |es|
  {
    if es == [] then s else End(Next(s, es[0], server), es[1..], server, delay)
  }

  /** At some moment from `oldest` to `newest` these were the server's labels for the namespace. */
  ghost predicate TrueAt(server: Server, ns: string, labels: Labels, oldest: int, newest: nat) {
    exists m: nat :: oldest <= m <= newest && server(ns, m) == labels
  }

  ghost predicate CallOk(c: Call, now: nat, server: Server, delay: nat) {
    match c
    case Trying(_, start) => start <= now
    case Fetched(ns, labels, at) => at <= now <= at + delay && TrueAt(server, ns, labels, at - ATTEMPT_TIMEOUT, at)
  }

  ghost predicate Inv(s: State, server: Server, delay: nat) {
    && (forall id :: id in s.calls ==> CallOk(s.calls[id], s.now, server, delay))
    && (forall ns :: ns in s.entries ==>
          && s.entries[ns].fetched <= s.now
          && TrueAt(server, ns, s.entries[ns].labels,
                    s.entries[ns].fetched - ATTEMPT_TIMEOUT - delay, s.entries[ns].fetched))
    && (forall i :: 0 <= i < |s.replies| ==>
          TrueAt(server, s.replies[i].ns, s.replies[i].labels,
                 s.replies[i].at - TTL - ATTEMPT_TIMEOUT - delay, s.replies[i].at))
  }

  /** A fact about an interval holds for every wider one. */
  lemma Widen(server: Server, ns: string, labels: Labels, oldest: int, newest: nat, older: int, newer: nat)
    requires TrueAt(server, ns, labels, oldest, newest) && older <= oldest && newest <= newer
    ensures TrueAt(server, ns, labels, older, newer)
  {
    var m: nat :| oldest <= m <= newest && server(ns, m) == labels;
    assert older <= m <= newer;
  }

  lemma StepKeepsInv(s: State, e: Event, server: Server, delay: nat)
    requires Inv(s, server, delay) && Enabled(s, e) && Prompt(s, e, delay)
    ensures Inv(Next(s, e, server), server, delay)
  {
    hide TrueAt;
    match e
    case Tick(d) =>
      forall id | id in s.calls ensures CallOk(s.calls[id], s.now + d, server, delay) {
        assert CallOk(s.calls[id], s.now, server, delay);
      }
    case Hit(ns) =>
      var entry := s.entries[ns];
      Widen(server, ns, entry.labels, entry.fetched - ATTEMPT_TIMEOUT - delay, entry.fetched,
            s.now - TTL - ATTEMPT_TIMEOUT - delay, s.now);
    case Served(id, m) =>
      TrueNow(server, s.calls[id].ns, m, s.now);
    case Store(id) =>
      var c := s.calls[id];
      assert CallOk(c, s.now, server, delay);
      Widen(server, c.ns, c.labels, c.at - ATTEMPT_TIMEOUT, c.at, s.now - ATTEMPT_TIMEOUT - delay, s.now);
      Widen(server, c.ns, c.labels, c.at - ATTEMPT_TIMEOUT, c.at, s.now - TTL - ATTEMPT_TIMEOUT - delay, s.now);
    case _ =>
  }

  lemma TrueNow(server: Server, ns: string, m: nat, now: nat)
    requires m <= now <= m + ATTEMPT_TIMEOUT
    ensures TrueAt(server, ns, server(ns, m), now - ATTEMPT_TIMEOUT, now)
  {
  }

  lemma {:induction false} RunKeepsInv(s: State, es: seq<Event>, server: Server, delay: nat)
    requires Inv(s, server, delay) && Run(s, es, server, delay)
    ensures Inv(End(s, es, server, delay), server, delay)
    decreases |es|
  {
    hide Inv, Next, Enabled, Prompt;
    if es != [] {
      StepKeepsInv(s, es[0], server, delay);
      RunKeepsInv(Next(s, es[0], server), es[1..], server, delay);
    }
  }

  /**
   Agreement: in every interleaving, labels returned without error at time t were
   the server's labels for that namespace at some moment from
   t - (TTL + attempt timeout + delay of the store) to t; and so far back at most
   reaches every cached entry that is still a hit.
   */
  lemma RepliesAgreeWithServer(es: seq<Event>, server: Server, delay: nat)
    requires Run(INIT, es, server, delay)
    ensures var s := End(INIT, es, server, delay);
            && (forall i :: 0 <= i < |s.replies| ==>
                  TrueAt(server, s.replies[i].ns, s.replies[i].labels,
                    s.replies[i].at - (TTL + ATTEMPT_TIMEOUT + delay), s.replies[i].at))
            && (forall ns :: ns in s.entries ==>
                  TrueAt(server, ns, s.entries[ns].labels, s.entries[ns].fetched - (ATTEMPT_TIMEOUT + delay),
                    s.entries[ns].fetched))
  {
    RunKeepsInv(INIT, es, server, delay);
  }

  /** The bound is met: an entry stored at the end of a full attempt is still returned a whole TTL later. */
  lemma StalestReply(server: Server, ns: string)
    ensures var es := [Begin(0, ns), Tick(ATTEMPT_TIMEOUT), Served(0, 0), Store(0), Tick(TTL), Hit(ns)];
            && Run(INIT, es, server, 0)
            && End(INIT, es, server, 0).replies
               == [Reply(ns, server(ns, 0), ATTEMPT_TIMEOUT), Reply(ns, server(ns, 0), TTL + ATTEMPT_TIMEOUT)]
  {
    hide Next;
    var s1 := State(0, map[], map[0 := Trying(ns, 0)], []);
    var s2 := State(ATTEMPT_TIMEOUT, map[], map[0 := Trying(ns, 0)], []);
    var s3 := State(ATTEMPT_TIMEOUT, map[], map[0 := Fetched(ns, server(ns, 0), ATTEMPT_TIMEOUT)], []);
    FetchAt300(server, ns);
    LateHit(server, ns);
    RunsFirst(s3, Store(0), [Tick(TTL), Hit(ns)], server, 0);
    RunsFirst(s2, Served(0, 0), [Store(0), Tick(TTL), Hit(ns)], server, 0);
    RunsFirst(s1, Tick(ATTEMPT_TIMEOUT), [Served(0, 0), Store(0), Tick(TTL), Hit(ns)], server, 0);
    RunsFirst(INIT, Begin(0, ns), [Tick(ATTEMPT_TIMEOUT), Served(0, 0), Store(0), Tick(TTL), Hit(ns)], server, 0);
  }

  lemma FetchAt300(server: Server, ns: string)
    ensures var s1 := State(0, map[], map[0 := Trying(ns, 0)], []);
            var s2 := State(ATTEMPT_TIMEOUT, map[], map[0 := Trying(ns, 0)], []);
            var s3 := State(ATTEMPT_TIMEOUT, map[], map[0 := Fetched(ns, server(ns, 0), ATTEMPT_TIMEOUT)], []);
            && Next(INIT, Begin(0, ns), server) == s1 && Next(s1, Tick(ATTEMPT_TIMEOUT), server) == s2
            && Next(s2, Served(0, 0), server) == s3 && Next(s3, Store(0), server) == StoredAt300(server, ns)
  {
  }

  function StoredAt300(server: Server, ns: string): State {
    State(ATTEMPT_TIMEOUT, map[ns := Entry(server(ns, 0), ATTEMPT_TIMEOUT)], map[],
      [Reply(ns, server(ns, 0), ATTEMPT_TIMEOUT)])
  }

  lemma LateHit(server: Server, ns: string)
    ensures var s := StoredAt300(server, ns);
            && Run(s, [Tick(TTL), Hit(ns)], server, 0)
            && End(s, [Tick(TTL), Hit(ns)], server, 0).replies
               == [Reply(ns, server(ns, 0), ATTEMPT_TIMEOUT), Reply(ns, server(ns, 0), TTL + ATTEMPT_TIMEOUT)]
  {
    var s := StoredAt300(server, ns);
    var s5 := Next(s, Tick(TTL), server);
    RunsFirst(s5, Hit(ns), [], server, 0);
    RunsFirst(s, Tick(TTL), [Hit(ns)], server, 0);
  }

  lemma RunsFirst(s: State, e: Event, es: seq<Event>, server: Server, delay: nat)
    requires Enabled(s, e) && Prompt(s, e, delay) && Run(Next(s, e, server), es, server, delay)
    ensures Run(s, [e] + es, server, delay)
    ensures End(s, [e] + es, server, delay) == End(Next(s, e, server), es, server, delay)
  {
    hide Enabled, Prompt, Next;
    assert ([e] + es)[0] == e && ([e] + es)[1..] == es;
  }
}
