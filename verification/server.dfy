/** The server's session rules: the handshake check, one step of the receive
    loop and of the dispatch loop over a client's FIFO queue, the per-macro
    cooldown that rate-limits playback, and the loading of the macro table.

    Time is in integer milliseconds; the clock reading, the bytes `recv`
    delivers, the random reads and the pause flag are parameters. Each
    step is taken one at a time: the detached threads of the source are not
    modelled. */
module Server {
  import opened Wrappers
  import opened Common
  import opened MacroId
  import opened Macros

  // ---------------------------------------------------------------------------
  // Cooldowns.

  const CooldownIncrement: int := 1000
  const CooldownBase: int := 500
  const CooldownMax: int := 3000

  /** A cooldown entry: when the window started and how long it lasts. */
  datatype Cooldown = Cooldown(start: int, duration: int)

  /** The invariant the constants give every stored duration. */
  predicate InRange(c: Cooldown) {
    CooldownBase <= c.duration <= CooldownMax
  }

  function Min(a: int, b: int): int {
    if a <= b then a else b
  }

  /** The cooldown decision of the playback thread for a macro whose entry
      is `entry`, at time `now`: whether it plays, and the new entry. A
      trigger inside the window is suppressed and lengthens the window
      without moving its start; any other trigger plays and opens a fresh
      window of the base length. */
  function CooldownStep(entry: Option<Cooldown>, now: int): (r: (bool, Cooldown))
    ensures r.0 <==> entry.None? || now - entry.value.start >= entry.value.duration
    ensures r.0 ==> r.1 == Cooldown(now, CooldownBase)
    ensures !r.0 ==> r.1.start == entry.value.start
    ensures !r.0 ==> r.1.duration == Min(entry.value.duration + CooldownIncrement, CooldownMax)
    ensures entry.Some? && InRange(entry.value) ==> InRange(r.1)
  {
    match entry
    case None => (true, Cooldown(now, CooldownBase))
    case Some(c) =>
      if now - c.start < c.duration then
        (false, Cooldown(c.start, Min(c.duration + CooldownIncrement, CooldownMax)))
      else
        (true, Cooldown(now, CooldownBase))
  }

  /** Every entry of a cooldown map is in range. */
  predicate AllInRange(cds: map<MacroId, Cooldown>) {
    forall m :: m in cds ==> InRange(cds[m])
  }

  /** A trigger of macro `m` at `now` against the client's cooldown map:
      whether it plays, and the map afterwards. Only `m`'s entry changes. */
  function Trigger(cds: map<MacroId, Cooldown>, m: MacroId, now: int): (r: (bool, map<MacroId, Cooldown>))
    ensures r.1.Keys == cds.Keys + {m}
    ensures forall k :: k in cds && k != m ==> r.1[k] == cds[k]
    ensures var step := CooldownStep(if m in cds then Some(cds[m]) else None, now);
      r.0 == step.0 && r.1[m] == step.1
    ensures AllInRange(cds) ==> AllInRange(r.1)
  {
    var (play, entry) := CooldownStep(if m in cds then Some(cds[m]) else None, now);
    (play, cds[m := entry])
  }

  /** Triggers of macro `m` at the successive times `times`: whether each
      plays, and the map afterwards. */
  function TriggerAll(cds: map<MacroId, Cooldown>, m: MacroId, times: seq<int>): (seq<bool>, map<MacroId, Cooldown>)
    decreases |times|
  {
    if times == [] then ([], cds)
    else
      var (play, next) := Trigger(cds, m, times[0]);
      var (plays, after) := TriggerAll(next, m, times[1..]);
      ([play] + plays, after)
  }

  /** Triggers that all fall inside the window `m` had before the first of
      them are all suppressed: the start stays, and each one adds the
      increment to the duration until it saturates at the maximum. The
      entry is in range, as `Trigger` keeps every stored entry. */
  lemma {:induction false} SuppressedTriggersSaturate(cds: map<MacroId, Cooldown>, m: MacroId, times: seq<int>)
    requires m in cds && InRange(cds[m])
    requires forall i :: 0 <= i < |times| ==> times[i] - cds[m].start < cds[m].duration
    ensures |TriggerAll(cds, m, times).0| == |times|
    ensures forall i :: 0 <= i < |times| ==> !TriggerAll(cds, m, times).0[i]
    ensures var after := TriggerAll(cds, m, times).1;
      m in after
      && after[m] == Cooldown(cds[m].start, Min(cds[m].duration + |times| * CooldownIncrement, CooldownMax))
    decreases |times|
  {
    if times != [] {
      var (play, next) := Trigger(cds, m, times[0]);
      assert next[m] == Cooldown(cds[m].start, Min(cds[m].duration + CooldownIncrement, CooldownMax)) && !play;
      assert forall i :: 0 <= i < |times[1..]| ==> times[1..][i] - next[m].start < next[m].duration by {
        forall i | 0 <= i < |times[1..]|
          ensures times[1..][i] - next[m].start < next[m].duration
        {
          assert times[1..][i] == times[i + 1];
        }
      }
      SuppressedTriggersSaturate(next, m, times[1..]);
    }
  }

  /** Triggers at 0, 200, 1200 and 2500 ms: the first plays, the next two
      are suppressed and lengthen the window to 1500 and then 2500 ms, and
      the last, exactly at the end of the window, plays and resets it. */
  lemma CooldownTrace(m: MacroId)
    ensures var t0 := Trigger(map[], m, 0);
      var t1 := Trigger(t0.1, m, 200);
      var t2 := Trigger(t1.1, m, 1200);
      var t3 := Trigger(t2.1, m, 2500);
      && t0.0 && t0.1[m] == Cooldown(0, 500)
      && !t1.0 && t1.1[m] == Cooldown(0, 1500)
      && !t2.0 && t2.1[m] == Cooldown(0, 2500)
      && t3.0 && t3.1[m] == Cooldown(2500, 500)
  {
  }

  // ---------------------------------------------------------------------------
  // A client session.

  /** Size of a macro id on the wire. */
  const IdSize: int := 32

  /** The part of `client_info` the loops use. */
  datatype Session = Session(queue: seq<MacroId>, readyToDie: bool, cooldowns: map<MacroId, Cooldown>)

  /** A new session: empty queue, no cooldowns. */
  const NewSession: Session := Session([], false, map[])

  /** One `recv` of the receive loop: the byte count it returned, the buffer,
      and whether the server was paused at the time. */
  datatype Incoming = Incoming(count: int, buf: MacroId, paused: bool)

  /** One iteration of `client_connection`: a closed connection marks the
      session for teardown and ends the loop; a read of the wrong size or a
      read while paused is dropped; a full id is queued at the back. Returns
      the session and whether the loop goes on. */
  function ReceiveStep(c: Session, inc: Incoming): (r: (Session, bool))
    ensures r.0.cooldowns == c.cooldowns
    ensures r.1 <==> inc.count != 0
    ensures r.1 ==> r.0.readyToDie == c.readyToDie
    ensures !r.1 ==> r.0.readyToDie && r.0.queue == c.queue
    ensures r.0.queue == c.queue || r.0.queue == c.queue + [inc.buf]
    ensures |r.0.queue| == |c.queue| + 1 <==> inc.count == IdSize && !inc.paused
  {
    if inc.count == 0 then (c.(readyToDie := true), false)
    else if inc.count != IdSize then (c, true)
    else if inc.paused then (c, true)
    else (c.(queue := c.queue + [inc.buf]), true)
  }

  /** The receive loop over a sequence of reads, up to the closing one. */
  function ReceiveAll(c: Session, ins: seq<Incoming>): Session
    decreases |ins|
  {
    if ins == [] then c
    else
      var (next, go) := ReceiveStep(c, ins[0]);
      if go then ReceiveAll(next, ins[1..]) else next
  }

  /** The ids a sequence of reads delivers: full reads while not paused,
      up to the first closed read. */
  function Accepted(ins: seq<Incoming>): seq<MacroId> {
    if ins == [] || ins[0].count == 0 then []
    else (if ins[0].count == IdSize && !ins[0].paused then [ins[0].buf] else []) + Accepted(ins[1..])
  }

  /** Some read reports a closed connection. */
  predicate Closes(ins: seq<Incoming>) {
    exists i :: 0 <= i < |ins| && ins[i].count == 0
  }

  /** The receive loop appends exactly the accepted ids, in order, with no
      bound on the queue, and leaves the cooldowns alone. */
  lemma {:induction false} ReceiveAllQueues(c: Session, ins: seq<Incoming>)
    ensures ReceiveAll(c, ins).queue == c.queue + Accepted(ins)
    ensures ReceiveAll(c, ins).cooldowns == c.cooldowns
    decreases |ins|
  {
    if ins != [] && ins[0].count != 0 {
      var next := ReceiveStep(c, ins[0]).0;
      ReceiveAllQueues(next, ins[1..]);
      assert c.queue + Accepted(ins) == next.queue + Accepted(ins[1..]);
    }
  }

  /** The receive loop marks a live session for teardown exactly when some
      read reports a closed connection. */
  lemma {:induction false} ReceiveAllCloses(c: Session, ins: seq<Incoming>)
    requires !c.readyToDie
    ensures ReceiveAll(c, ins).readyToDie <==> Closes(ins)
    decreases |ins|
  {
    if ins != [] {
      if ins[0].count != 0 {
        ReceiveAllCloses(ReceiveStep(c, ins[0]).0, ins[1..]);
        if Closes(ins[1..]) {
          var i :| 0 <= i < |ins[1..]| && ins[1..][i].count == 0;
          assert ins[i + 1].count == 0;
        }
        if Closes(ins) {
          var i :| 0 <= i < |ins| && ins[i].count == 0;
          assert i > 0 && ins[1..][i - 1].count == 0;
        }
      } else {
        assert ins[0].count == 0;
      }
    }
  }

  /** The dequeue of `client_input`: nothing when the queue is empty,
      otherwise exactly the front id. */
  function Dequeue(c: Session): (r: (Session, Option<MacroId>))
    ensures c.queue == [] <==> r.1.None?
    ensures r.1.Some? ==> [r.1.value] + r.0.queue == c.queue
    ensures r.1.None? ==> r.0 == c
    ensures r.0.cooldowns == c.cooldowns && r.0.readyToDie == c.readyToDie
  {
    if c.queue == [] then (c, None) else (c.(queue := c.queue[1..]), Some(c.queue[0]))
  }

  /** The ids `n` dequeues deliver. */
  function DequeueMany(c: Session, n: nat): seq<MacroId>
    decreases n
  {
    if n == 0 then []
    else
      var (next, m) := Dequeue(c);
      (if m.Some? then [m.value] else []) + DequeueMany(next, n - 1)
  }

  /** The queue is first in, first out: dequeuing as many times as there are
      ids delivers exactly the queue, in order. */
  lemma {:induction false} DequeueFifo(c: Session)
    ensures DequeueMany(c, |c.queue|) == c.queue
    decreases |c.queue|
  {
    if c.queue != [] {
      var (next, m) := Dequeue(c);
      DequeueFifo(next);
    }
  }

  /** The macro table: macro id to compiled sequence. */
  type Table = map<MacroId, seq<Action>>

  /** The table lookup of the playback thread: the stored sequence, or
      `undefined_macro_seq`, which writes no device event. */
  function Lookup(table: Table, m: MacroId): (s: seq<Action>)
    ensures m in table ==> s == table[m]
    ensures m !in table ==> forall k :: 0 <= k < |s| ==> Playable(s[k])
    ensures m !in table ==> PlaySequence(s) == []
  {
    if m in table then table[m] else UndefinedMacro
  }

  /** What one iteration of `client_input` does. */
  datatype Dispatch = Stopped | Idle | Suppressed(id: MacroId) | Played(id: MacroId, actions: seq<Action>)

  /** One iteration of `client_input` at time `now`, with the playback it
      spawns run to its cooldown decision: the loop stops once the session
      is marked for teardown; an empty queue idles; otherwise the front id
      is removed and either suppressed by its cooldown or played. */
  function DispatchStep(c: Session, table: Table, now: int): (r: (Session, Dispatch))
    ensures c.readyToDie ==> r == (c, Stopped)
    ensures !c.readyToDie && c.queue == [] ==> r == (c, Idle)
    ensures !c.readyToDie && c.queue != [] ==>
      && r.0.queue == c.queue[1..]
      && (r.1 == Suppressed(c.queue[0]) || r.1 == Played(c.queue[0], Lookup(table, c.queue[0])))
      && (r.1.Played? <==>
            (c.queue[0] !in c.cooldowns || now - c.cooldowns[c.queue[0]].start >= c.cooldowns[c.queue[0]].duration))
    ensures !c.readyToDie && c.queue != [] ==>
      var t := Trigger(c.cooldowns, c.queue[0], now);
      r.0 == c.(queue := c.queue[1..], cooldowns := t.1) && (r.1.Played? <==> t.0)
    ensures AllInRange(c.cooldowns) ==> AllInRange(r.0.cooldowns)
  {
    if c.readyToDie then (c, Stopped)
    else
      var (next, front) := Dequeue(c);
      match front
      case None => (c, Idle)
      case Some(m) =>
        var (play, cds) := Trigger(next.cooldowns, m, now);
        (next.(cooldowns := cds), if play then Played(m, Lookup(table, m)) else Suppressed(m))
  }

  /** The same id dispatched twice in a row, the second time less than the
      base window after a first dispatch that played: the second is
      suppressed, and the window then runs from the first play for the base
      duration plus one increment. */
  lemma DoubleScanPlaysOnce(c: Session, table: Table, now: int, later: int)
    requires !c.readyToDie && |c.queue| >= 2 && c.queue[0] == c.queue[1]
    requires now <= later < now + CooldownBase
    ensures var (c1, d1) := DispatchStep(c, table, now);
      var (c2, d2) := DispatchStep(c1, table, later);
      d1.Played? ==>
        && d2 == Suppressed(c.queue[0])
        && c2.queue == c.queue[2..]
        && c2.cooldowns[c.queue[0]] == Cooldown(now, CooldownBase + CooldownIncrement)
  {
    hide DispatchStep, Trigger;
    var m := c.queue[0];
    var (c1, d1) := DispatchStep(c, table, now);
    var t := Trigger(c.cooldowns, m, now);
    assert c1.queue == c.queue[1..] && c1.cooldowns == t.1;
    if d1.Played? {
      assert c1.cooldowns[m] == Cooldown(now, CooldownBase);
      assert c1.queue[0] == m;
    }
  }

  // ---------------------------------------------------------------------------
  // Handshake.

  /** The outcome of `handshake`: whether the client is accepted, and the
      challenge bytes handed to `send`, if the check got that far. */
  datatype Handshake = Handshake(accepted: bool, challenge: Option<bv64>)

  /** `handshake` on the server. `hello` and `reply` are the values `recv`
      stored (`None` when it returned an error), and `sent` says whether
      `send` succeeded. On a little-endian build `htonll(get_random_64bit())`
      reads `/dev/urandom` twice: `lowFrom` is the read whose low word the
      challenge carries and `highFrom` the read whose high word it carries. */
  function ServerHandshake(host: Endian, hello: Option<bv32>, lowFrom: bv64, highFrom: bv64, sent: bool,
                           reply: Option<bv64>): (h: Handshake)
  {
    if hello.None? || Ntohl(host, hello.value) != Magic then Handshake(false, None)
    else
      var x := HtonllTwice(host, lowFrom, highFrom);
      if !sent then Handshake(false, Some(x))
      else
        var result := Expected(Ntohll(host, x));
        if reply.None? || Ntohll(host, reply.value) != result then Handshake(false, Some(x))
        else Handshake(true, Some(x))
  }

  /** The server accepts exactly when the magic matches, the challenge went
      out, and the client's reply decodes to the hash iterated `x mod 69`
      times on the challenge `x` the server decodes from what it sent; a
      wrong magic ends the handshake before any challenge is sent. That
      challenge splices the two random reads, and is the single read when
      they agree. */
  lemma HandshakeAccepts(host: Endian, hello: Option<bv32>, lowFrom: bv64, highFrom: bv64, sent: bool,
                         reply: Option<bv64>)
    ensures var h := ServerHandshake(host, hello, lowFrom, highFrom, sent, reply);
      var x := Spliced(host, lowFrom, highFrom);
      && (h.accepted <==> hello.Some? && Ntohl(host, hello.value) == Magic && sent
                          && reply.Some? && Ntohll(host, reply.value) == Expected(x))
      && (h.challenge.None? <==> hello.None? || Ntohl(host, hello.value) != Magic)
      && (h.challenge.Some? ==> h.challenge.value == Htonll(host, x) && Ntohll(host, h.challenge.value) == x)
    ensures lowFrom == highFrom ==> Spliced(host, lowFrom, highFrom) == lowFrom
  {
    HtonllTwiceSpliced(host, lowFrom, highFrom);
  }

  // ---------------------------------------------------------------------------
  // Loading the macro table.

  /** An entry of the `macros` directory: its file name, whether it is a
      regular file, and its lines (`None` when it cannot be opened). */
  datatype DirEntry = DirEntry(name: string, regular: bool, contents: Option<seq<string>>)

  /** `load_macros` either fills the table or exits the process, naming the
      file that failed. */
  datatype Load = Loaded(table: Table) | Fatal(name: string)

  /** `build_macro` on an entry: a file that cannot be opened fails too. */
  function BuildEntry(e: DirEntry): Option<seq<Action>> {
    if e.contents.None? then None else Built(e.contents.value)
  }

  /** The directory loop, from table `t`: non-regular entries are skipped,
      the first failing file is fatal, and each file is stored under the
      digest of its name, replacing what was there. `digest` is SHA-256. */
  function LoadEntries(t: Table, es: seq<DirEntry>, digest: string -> MacroId): Load
    decreases |es|
  {
    if es == [] then Loaded(t)
    else if !es[0].regular then LoadEntries(t, es[1..], digest)
    else
      match BuildEntry(es[0])
      case None => Fatal(es[0].name)
      case Some(s) => LoadEntries(t[digest(es[0].name) := s], es[1..], digest)
  }

  /** `load_macros`: a missing `macros` directory leaves the table empty. */
  function LoadMacros(dir: Option<seq<DirEntry>>, digest: string -> MacroId): (r: Load)
    ensures dir.None? ==> r == Loaded(map[])
  {
    if dir.None? then Loaded(map[]) else LoadEntries(map[], dir.value, digest)
  }

  /** Some regular file of the listing fails to compile. */
  predicate HasBroken(es: seq<DirEntry>) {
    exists i :: 0 <= i < |es| && es[i].regular && BuildEntry(es[i]).None?
  }

  /** Loading is fatal exactly when some regular file fails. */
  lemma {:induction false} LoadFatalIff(t: Table, es: seq<DirEntry>, digest: string -> MacroId)
    ensures LoadEntries(t, es, digest).Fatal? <==> HasBroken(es)
    decreases |es|
  {
    if es != [] {
      LoadFatalIff(if es[0].regular && BuildEntry(es[0]).Some? then t[digest(es[0].name) := BuildEntry(es[0]).value] else t,
                   es[1..], digest);
      if HasBroken(es[1..]) {
        var i :| 0 <= i < |es[1..]| && es[1..][i].regular && BuildEntry(es[1..][i]).None?;
        assert es[i + 1] == es[1..][i];
      }
      if HasBroken(es) && !(es[0].regular && BuildEntry(es[0]).None?) {
        var i :| 0 <= i < |es| && es[i].regular && BuildEntry(es[i]).None?;
        assert i > 0 && es[1..][i - 1] == es[i];
      }
    }
  }

  /** A regular entry at index `i` is the last regular entry whose name has
      digest `m`. */
  predicate LastFor(es: seq<DirEntry>, i: int, m: MacroId, digest: string -> MacroId) {
    && 0 <= i < |es| && es[i].regular && digest(es[i].name) == m
    && forall j :: i < j < |es| && es[j].regular ==> digest(es[j].name) != m
  }

  /** A successful load stores, under each id, the sequence of the last
      regular file whose name has that digest. */
  lemma {:induction false} LoadLastWins(t: Table, es: seq<DirEntry>, digest: string -> MacroId, m: MacroId, i: int)
    requires LoadEntries(t, es, digest).Loaded?
    requires LastFor(es, i, m, digest)
    ensures m in LoadEntries(t, es, digest).table
    ensures BuildEntry(es[i]).Some? && LoadEntries(t, es, digest).table[m] == BuildEntry(es[i]).value
    decreases |es|
  {
    hide Built;
    var t' := if es[0].regular then t[digest(es[0].name) := BuildEntry(es[0]).value] else t;
    assert LoadEntries(t, es, digest) == LoadEntries(t', es[1..], digest);
    if i > 0 {
      assert LastFor(es[1..], i - 1, m, digest);
      LoadLastWins(t', es[1..], digest, m, i - 1);
      assert es[1..][i - 1] == es[i];
    } else {
      LoadFatalIff(t', es[1..], digest);
      assert forall j :: 0 <= j < |es[1..]| && es[1..][j].regular ==> digest(es[1..][j].name) != m;
      LoadUntouched(t', es[1..], digest, m);
    }
  }

  /** Ids that no regular file's name digests to keep their earlier entry
      (or their absence). */
  lemma {:induction false} LoadUntouched(t: Table, es: seq<DirEntry>, digest: string -> MacroId, m: MacroId)
    requires LoadEntries(t, es, digest).Loaded?
    requires forall i :: 0 <= i < |es| && es[i].regular ==> digest(es[i].name) != m
    ensures m in LoadEntries(t, es, digest).table <==> m in t
    ensures m in t ==> LoadEntries(t, es, digest).table[m] == t[m]
    decreases |es|
  {
    hide Built;
    if es != [] {
      var t' := if es[0].regular then t[digest(es[0].name) := BuildEntry(es[0]).value] else t;
      assert LoadEntries(t, es, digest) == LoadEntries(t', es[1..], digest);
      assert forall j :: 0 <= j < |es[1..]| && es[1..][j].regular ==> digest(es[1..][j].name) != m;
      LoadUntouched(t', es[1..], digest, m);
    }
  }
}
