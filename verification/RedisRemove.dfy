/** Removing all keys that match a pattern: a scan/delete loop over a server that only promises that
    a full iteration returns every key that was there throughout, and over connections that fail, so
    that a deletion may be carried out, not be answered, and be sent again. */
module RedisRemove {
  import opened Bytes

  type Key = string

  datatype ScanReply = Page(cursor: string, keys: seq<Key>) | Malformed

  /** What becomes of one attempt to run a command: it is answered; it is answered with an error; it is
      carried out but the connection fails before the reply; or it never reaches the server. */
  datatype Fate = Answered | Refused | Lost | Unsent

  /** The server's answers to one pattern and batch size, and the fates of attempts. Commands are
      numbered; what a scan returns may depend on its number, the keys and the cursor. */
  datatype Oracle = Oracle(scan: (nat, set<Key>, string) -> ScanReply, fate: (nat, nat) -> Fate, matches: Key -> bool)

  const INVALID: string := "0"
  const LOOP_LIMIT := 1000

  // ---------- attempts ----------

  /** How the attempts at a command end: with a reply or without one, and whether an attempt before
      the last was carried out. */
  datatype Ending = Ending(replied: bool, carried: bool)

  /** Attempt `a` is made if those before it have failed: the connection is taken to be dead, whether the
      command was carried out or not. */
  predicate Reached(o: Oracle, t: nat, a: nat) {
    forall b | 0 <= b < a :: o.fate(t, b) == Lost || o.fate(t, b) == Unsent
  }

  /** One of the attempts that are made, of which there are at most `retries`, ends in this way. */
  ghost predicate Meets(o: Oracle, t: nat, retries: nat, fate: Fate) {
    exists a :: 0 <= a < retries && o.fate(t, a) == fate && forall b | 0 <= b < a :: o.fate(t, b) in {Lost, Unsent}
  }

  ghost function Command(o: Oracle, t: nat, retries: nat): Ending {
    Ending(Meets(o, t, retries, Answered), Meets(o, t, retries, Lost))
  }

  /** Where the attempts end. */
  lemma LastAttempt(o: Oracle, t: nat, retries: nat, a: nat)
    requires a <= retries && Reached(o, t, a)
    requires a < retries ==> o.fate(t, a) == Answered || o.fate(t, a) == Refused
    ensures Command(o, t, retries).replied == (a < retries && o.fate(t, a) == Answered)
    ensures Command(o, t, retries).carried == exists b :: 0 <= b < a && o.fate(t, b) == Lost
  {
  }

  /** Every command gets its reply in the end. */
  ghost predicate Responsive(o: Oracle, retries: nat) {
    forall t :: Meets(o, t, retries, Answered)
  }

  /** Every reply that arrives is that of a repetition: an attempt before it was carried out. */
  ghost predicate AlwaysRepeated(o: Oracle, retries: nat) {
    forall t :: Meets(o, t, retries, Answered) ==> Meets(o, t, retries, Lost)
  }

  // ---------- what the server promises ----------

  /** Scans return keys that exist and match the pattern. */
  ghost predicate Sound(o: Oracle) {
    forall t, db, c | o.scan(t, db, c).Page? :: forall k | k in o.scan(t, db, c).keys :: k in db && o.matches(k)
  }

  /** An answered scan: its number, the keys there were, and the cursor it was given. */
  datatype Visit = Visit(t: nat, db: set<Key>, cursor: string)

  function ReplyTo(o: Oracle, v: Visit): ScanReply {
    o.scan(v.t, v.db, v.cursor)
  }

  /** A scan that goes on where another left off, later and with no more keys. */
  predicate Follows(o: Oracle, earlier: Visit, later: Visit)
    requires ReplyTo(o, earlier).Page?
  {
    && later.cursor == ReplyTo(o, earlier).cursor != INVALID
    && later.t > earlier.t
    && later.db <= earlier.db
  }

  /** Scans that follow each other in one iteration and have got as far as `cursor`. Keys may disappear
      meanwhile. */
  ghost predicate Trail(o: Oracle, trail: seq<Visit>, cursor: string) {
    && (forall i | 0 <= i < |trail| :: ReplyTo(o, trail[i]).Page?)
    && (forall i, j | 0 <= i < |trail| && j == i + 1 && j < |trail| :: Follows(o, trail[i], trail[j]))
    && (if trail == [] then cursor == INVALID
        else trail[0].cursor == INVALID && cursor == ReplyTo(o, trail[|trail| - 1]).cursor)
  }

  /** The SCAN guarantee: a full iteration, from the zero cursor back to it, returns every matching key
      that was there throughout, whatever else disappears in the course of it. */
  ghost predicate FullIterations(o: Oracle) {
    forall trail: seq<Visit>, k: Key | trail != [] && Trail(o, trail, INVALID) && Throughout(trail, k) && o.matches(k) ::
      exists i :: 0 <= i < |trail| && k in ReplyTo(o, trail[i]).keys
  }

  ghost predicate Throughout(trail: seq<Visit>, k: Key) {
    forall i | 0 <= i < |trail| :: k in trail[i].db
  }

  ghost function SeqOf(s: set<Key>): (q: seq<Key>)
    ensures forall k :: k in q <==> k in s
  {
    if s == {} then [] else var k :| k in s; [k] + SeqOf(s - {k})
  }

  /** There are servers that keep these promises, for every pattern and whatever becomes of attempts. */
  lemma PromisesCanBeKept(matches: Key -> bool, fate: (nat, nat) -> Fate)
    ensures exists o: Oracle :: o.matches == matches && o.fate == fate && Sound(o) && FullIterations(o)
  {
    var scan := (t: nat, db: set<Key>, c: string) => Page(INVALID, SeqOf(set k | k in db && matches(k)));
    var o := Oracle(scan, fate, matches);
    forall trail: seq<Visit>, k: Key | trail != [] && Trail(o, trail, INVALID) && Throughout(trail, k) && o.matches(k)
      ensures exists i :: 0 <= i < |trail| && k in ReplyTo(o, trail[i]).keys
    {
      assert k in trail[0].db && k in ReplyTo(o, trail[0]).keys;
    }
    assert Sound(o) && FullIterations(o);
  }

  /** The named keys that the scans have returned are gone, and no key has come back. */
  ghost predicate Cleared(o: Oracle, trail: seq<Visit>, db: set<Key>) {
    forall i | 0 <= i < |trail| ::
      && db <= trail[i].db
      && (ReplyTo(o, trail[i]).Page? ==> forall k | k in ReplyTo(o, trail[i]).keys :: k == "" || k !in db)
  }

  /** An iteration in progress since its zero cursor, with everything it found removed. */
  ghost predicate Sweep(o: Oracle, trail: seq<Visit>, cursor: string, db: set<Key>, now: nat) {
    && Trail(o, trail, cursor)
    && Cleared(o, trail, db)
    && (trail != [] ==> trail[|trail| - 1].t < now)
  }

  lemma SweepStart(o: Oracle, db: set<Key>, now: nat)
    ensures Sweep(o, [], INVALID, db, now)
  {
  }

  /** One more page, whose named keys have been removed. */
  lemma SweepStep(o: Oracle, trail: seq<Visit>, v: Visit, db: set<Key>, now: nat)
    requires Sweep(o, trail, v.cursor, v.db, v.t) && (trail != [] ==> v.cursor != INVALID)
    requires ReplyTo(o, v).Page? && v.t < now && db <= v.db
    requires forall k | k in NonEmptyNames(ReplyTo(o, v).keys) :: k !in db
    ensures Sweep(o, trail + [v], ReplyTo(o, v).cursor, db, now)
  {
    var more := trail + [v];
    forall i | 0 <= i < |more|
      ensures ReplyTo(o, more[i]).Page? && db <= more[i].db
      ensures forall k | k in ReplyTo(o, more[i]).keys :: k == "" || k !in db
    {
      if i == |trail| {
        assert forall k | k in ReplyTo(o, v).keys :: k == "" || k in NonEmptyNames(ReplyTo(o, v).keys);
      } else {
        assert more[i] == trail[i];
      }
    }
    forall i, j | 0 <= i < |more| && j == i + 1 && j < |more|
      ensures Follows(o, more[i], more[j])
    {
      assert more[i] == trail[i];
      if j < |trail| {
        assert more[j] == trail[j];
      }
    }
  }

  /** A finished sweep leaves no matching key with a name. */
  lemma SweepEnd(o: Oracle, trail: seq<Visit>, db: set<Key>, now: nat)
    requires FullIterations(o) && trail != [] && Sweep(o, trail, INVALID, db, now)
    ensures forall k | k in db && o.matches(k) :: k == ""
  {
    forall k | k in db && o.matches(k)
      ensures k == ""
    {
      assert Throughout(trail, k);
      var i :| 0 <= i < |trail| && k in ReplyTo(o, trail[i]).keys;
    }
  }

  // ---------- the server and the client ----------

  /** The keyspace when the keys named are deleted. */
  function Without(db: set<Key>, keys: seq<Key>): (left: set<Key>)
    ensures |left| <= |db|
  {
    assert db == (db - set k | k in keys) + (db * set k | k in keys);
    db - set k | k in keys
  }

  lemma TwiceIsOnce(db: set<Key>, keys: seq<Key>)
    ensures Without(Without(db, keys), keys) == Without(db, keys)
  {
  }

  class Server {
    const oracle: Oracle
    var db: set<Key>
    /** The number of the next command. */
    var clock: nat
    /** The commands answered to the client ... */
    var log: seq<Entry>
    /** ... and the number of its deletions that were carried out, not answered, and sent again. */
    var replayed: nat

    constructor (oracle: Oracle, db: set<Key>)
      ensures this.oracle == oracle && this.db == db && clock == 0 && log == [] && replayed == 0
    {
      this.oracle, this.db, clock, log, replayed := oracle, db, 0, [], 0;
    }

    /** An attempt at a deletion: the number of keys it removed, if that reaches the client. */
    method Del(keys: seq<Key>, a: nat) returns (count: Option<nat>)
      modifies this`db
      ensures var f := oracle.fate(clock, a);
        && db == (if f == Answered || f == Lost then Without(old(db), keys) else old(db))
        && count == (if f == Answered then Some(|old(db)| - |db|) else None)
    {
      var fate, before := oracle.fate(clock, a), |db|;
      if fate == Answered || fate == Lost {
        db := Without(db, keys);
      }
      count := if fate == Answered then Some(before - |db|) else None;
    }
  }

  class Cursor {
    var value: string

    constructor ()
      ensures value == INVALID
    {
      value := INVALID;
    }

    predicate IsValid()
      reads this
    {
      value != INVALID
    }

    method Assign(value: string)
      modifies this
      ensures this.value == value
    {
      this.value := value;
    }

    method Reset()
      modifies this
      ensures value == INVALID
    {
      value := INVALID;
    }
  }

  datatype Entry = Scanned(cursor: string, reply: ScanReply) | Deleted(keys: seq<Key>, count: nat)

  datatype Outcome = Returned(removed: nat) | ExecFailed | EndlessLoop

  function NonEmptyNames(keys: seq<Key>): (r: seq<Key>)
    ensures forall k :: k in r <==> k in keys && k != ""
  {
    if keys == [] then []
    else (if keys[0] != "" then [keys[0]] else []) + NonEmptyNames(keys[1..])
  }

  lemma NoNames(keys: seq<Key>)
    requires keys == []
    ensures NonEmptyNames(keys) == []
  {
  }

  lemma {:induction false} NextName(keys: seq<Key>, i: nat)
    requires i < |keys|
    ensures NonEmptyNames(keys[..i + 1]) == NonEmptyNames(keys[..i]) + if keys[i] != "" then [keys[i]] else []
    decreases |keys|
  {
    if i == 0 {
      assert keys[..1][1..] == [] && keys[..0] == [];
    } else {
      NextName(keys[1..], i - 1);
      assert keys[..i + 1][1..] == keys[1..][..i] && keys[..i][1..] == keys[1..][..i - 1];
    }
  }

  /** The keys a reply gives, which are those with a name, and the cursor it leaves. */
  function Names(r: ScanReply): seq<Key> {
    if r.Page? then NonEmptyNames(r.keys) else []
  }

  function NextCursor(r: ScanReply): string {
    if r.Page? then r.cursor else INVALID
  }

  /** Replies that gave the loop nothing to delete but a cursor to go on with. */
  predicate Idle(replies: seq<ScanReply>) {
    forall r | r in replies :: NextCursor(r) != INVALID && Names(r) == []
  }

  /** Replies that the server gives at some time. */
  ghost predicate AllGiven(o: Oracle, replies: seq<ScanReply>) {
    forall r | r in replies :: exists v :: r == ReplyTo(o, v)
  }

  predicate AllPages(replies: seq<ScanReply>) {
    forall r | r in replies :: r.Page?
  }

  /** What is gone from a keyspace are keys that match and have a name. */
  ghost predicate OnlyMatching(o: Oracle, before: set<Key>, db: set<Key>) {
    db <= before && forall k | k in before - db :: o.matches(k) && k != ""
  }

  // ---------- the order of commands ----------

  function Last(log: seq<Entry>): Entry
    requires log != []
  {
    log[|log| - 1]
  }

  function RepliesIn(log: seq<Entry>): seq<ScanReply> {
    if log == [] then []
    else RepliesIn(log[..|log| - 1]) + if Last(log).Scanned? then [Last(log).reply] else []
  }

  function Counted(log: seq<Entry>): nat {
    if log == [] then 0 else Counted(log[..|log| - 1]) + if Last(log).Deleted? then Last(log).count else 0
  }

  /** Where an iteration stands: the first scan, and the first after a deletion that counted, is given the
      zero cursor, and any other the cursor of the last page. */
  function Resumes(log: seq<Entry>): string {
    if log == [] then INVALID
    else match Last(log)
      case Scanned(_, reply) => NextCursor(reply)
      case Deleted(_, count) => if count > 0 then INVALID else Resumes(log[..|log| - 1])
  }

  /** Named keys are deleted before anything else is done. */
  predicate DeletionDue(log: seq<Entry>, keys: seq<Key>) {
    log != [] && Last(log).Scanned? && Names(Last(log).reply) == keys && keys != []
  }

  /** Nothing is left to do: the last scan came to the end of its iteration, and nothing counted since. */
  predicate Finished(log: seq<Entry>) {
    && log != [] && Resumes(log) == INVALID
    && match Last(log)
       case Scanned(_, reply) => Names(reply) == []
       case Deleted(_, count) => count == 0
  }

  predicate ScanDue(log: seq<Entry>, cursor: string) {
    && cursor == Resumes(log) && !Finished(log)
    && (log != [] && Last(log).Scanned? ==> Names(Last(log).reply) == [])
  }

  /** Every command is the one that is due. */
  predicate Orderly(log: seq<Entry>)
    decreases |log|
  {
    log == [] || (Orderly(log[..|log| - 1]) && EntryDue(log[..|log| - 1], Last(log)))
  }

  predicate EntryDue(log: seq<Entry>, e: Entry) {
    if e.Scanned? then ScanDue(log, e.cursor) else DeletionDue(log, e.keys)
  }

  lemma OneMoreEntry(log: seq<Entry>, e: Entry)
    requires Orderly(log) && EntryDue(log, e)
    ensures Orderly(log + [e]) && Last(log + [e]) == e
    ensures RepliesIn(log + [e]) == RepliesIn(log) + if e.Scanned? then [e.reply] else []
    ensures Counted(log + [e]) == Counted(log) + if e.Deleted? then e.count else 0
    ensures Resumes(log + [e]) == if e.Scanned? then NextCursor(e.reply) else if e.count > 0 then INVALID else Resumes(log)
  {
    assert (log + [e])[..|log|] == log;
  }

  /** A scan that gave nothing to delete leaves another scan due, or nothing. */
  lemma OrderSkipped(l: Loop, next: Loop, reply: ScanReply)
    requires Orders(l) && l.again && Names(reply) == []
    requires next.log == l.log + [Scanned(l.cursor, reply)] && next.got == l.got + [reply] && next.removed == l.removed
    requires next.cursor == NextCursor(reply) && next.again == (next.cursor != INVALID)
    ensures Orders(next)
  {
    OneMoreEntry(l.log, Scanned(l.cursor, reply));
  }

  lemma OrderDeleted(l: Loop, next: Loop, reply: ScanReply, count: nat)
    requires Orders(l) && l.again && Names(reply) != []
    requires next.log == l.log + [Scanned(l.cursor, reply)] + [Deleted(Names(reply), count)] && next.got == l.got + [reply]
    requires next.removed == l.removed + count && next.cursor == (if count > 0 then INVALID else NextCursor(reply))
    requires next.again == (count > 0 || NextCursor(reply) != INVALID)
    ensures Orders(next)
  {
    hide Names, NextCursor;
    var scanned := l.log + [Scanned(l.cursor, reply)];
    OneMoreEntry(l.log, Scanned(l.cursor, reply));
    OneMoreEntry(scanned, Deleted(Names(reply), count));
  }

  // ---------- the loop of a removal ----------

  /** Where a removal stands: what the server has, the command number, the replayed deletions, the loop's
      variables, the replies received, and the scans since the cursor was last reset. */
  datatype Loop = Loop(db: set<Key>, clock: nat, replays: nat, removed: nat, loopGuard: nat, cursor: string,
                       got: seq<ScanReply>, trail: seq<Visit>, log: seq<Entry>, again: bool)

  function Begun(db: set<Key>, clock: nat): Loop {
    Loop(db, clock, 0, 0, 0, INVALID, [], [], [], true)
  }

  ghost predicate Tally(o: Oracle, start: Loop, l: Loop) {
    && OnlyMatching(o, start.db, l.db)
    && l.loopGuard <= LOOP_LIMIT
    && l.clock - start.clock <= 1002 * (|start.db| - |l.db|) + l.loopGuard
    && l.removed <= |start.db| - |l.db|
    && (l.removed == |start.db| - |l.db| <==> l.replays == 0)
  }

  ghost predicate Replies(o: Oracle, start: Loop, l: Loop) {
    && AllGiven(o, l.got)
    && (l.got == [] ==> l.again && l.removed == 0 && l.db == start.db && l.loopGuard == 0)
    && (l.got != [] ==> AllPages(l.got[..|l.got| - 1]))
    && (l.got != [] && l.got[0].Malformed? ==> !l.again && l.removed == 0 && l.db == start.db)
    && (l.again ==> AllPages(l.got) && l.loopGuard <= |l.got| && Idle(l.got[|l.got| - l.loopGuard..]))
  }

  ghost predicate Iterating(o: Oracle, l: Loop) {
    && (AllPages(l.got) ==> Sweep(o, l.trail, l.cursor, l.db, l.clock))
    && (if l.again then l.trail != [] ==> l.cursor != INVALID else l.trail != [] && l.cursor == INVALID)
  }

  ghost predicate Inv(o: Oracle, start: Loop, l: Loop) {
    Tally(o, start, l) && Replies(o, start, l) && Iterating(o, l) && Orders(l)
  }

  ghost predicate Orders(l: Loop) {
    && Orderly(l.log) && l.got == RepliesIn(l.log) && l.removed == Counted(l.log)
    && if l.again then ScanDue(l.log, l.cursor) else Finished(l.log)
  }

  lemma Begins(o: Oracle, db: set<Key>, clock: nat)
    ensures Inv(o, Begun(db, clock), Begun(db, clock))
  {
  }

  lemma MoreReplies(o: Oracle, v: Visit, got: seq<ScanReply>, idle: nat, r: ScanReply)
    requires idle <= |got| && r == ReplyTo(o, v)
    ensures AllGiven(o, got) ==> AllGiven(o, got + [r])
    ensures AllPages(got + [r]) <==> AllPages(got) && r.Page?
    ensures (got + [r])[..|got|] == got && (got != [] ==> (got + [r])[0] == got[0])
    ensures Idle([])
    ensures Idle(got[|got| - idle..]) && NextCursor(r) != INVALID && Names(r) == [] ==>
              Idle((got + [r])[|got| - idle..])
  {
    assert (got + [r])[|got| - idle..] == got[|got| - idle..] + [r];
  }

  /** A scan that gave nothing to delete. */
  lemma SkippedKeeps(o: Oracle, start: Loop, l: Loop, reply: ScanReply) returns (next: Loop)
    requires Inv(o, start, l) && l.again && l.loopGuard < LOOP_LIMIT
    requires reply == o.scan(l.clock, l.db, l.cursor) && Names(reply) == []
    ensures Inv(o, start, next) && next.again == (NextCursor(reply) != INVALID)
    ensures next.db == l.db && next.clock == l.clock + 1 && next.replays == l.replays && next.removed == l.removed
    ensures next.loopGuard == l.loopGuard + 1 && next.cursor == NextCursor(reply) && next.log == l.log + [Scanned(l.cursor, reply)]
  {
    hide AllGiven, Sweep, AllPages, Idle, NonEmptyNames, Orders;
    var v := Visit(l.clock, l.db, l.cursor);
    MoreReplies(o, v, l.got, l.loopGuard, reply);
    if reply.Page? {
      SweepStep(o, l.trail, v, l.db, l.clock + 1);
    }
    next := Loop(l.db, l.clock + 1, l.replays, l.removed, l.loopGuard + 1, NextCursor(reply), l.got + [reply],
                 l.trail + [v], l.log + [Scanned(l.cursor, reply)], NextCursor(reply) != INVALID);
    OrderSkipped(l, next, reply);
  }

  /** The named keys of a page are keys there were, that match. */
  lemma PageIsDeleted(o: Oracle, before: set<Key>, v: Visit, keys: seq<Key>)
    requires Sound(o) && keys == Names(ReplyTo(o, v)) && keys != []
    requires OnlyMatching(o, before, v.db)
    ensures var left := Without(v.db, keys);
      left <= v.db && |left| < |v.db| && OnlyMatching(o, before, left) && forall k | k in keys :: k !in left
  {
    assert keys[0] in keys && keys[0] in v.db;
    Shrinks(Without(v.db, keys), v.db);
  }

  lemma DeletedTally(o: Oracle, start: Loop, l: Loop, next: Loop)
    requires Tally(o, start, l) && OnlyMatching(o, start.db, next.db) && |next.db| < |l.db| && next.loopGuard == 0
    requires next.clock == l.clock + 2 && next.replays >= l.replays
    requires next.removed == l.removed + if next.replays == l.replays then |l.db| - |next.db| else 0
    ensures Tally(o, start, next)
  {
    hide OnlyMatching;
  }

  lemma DeletedReplies(o: Oracle, start: Loop, l: Loop, reply: ScanReply, next: Loop)
    requires Replies(o, start, l) && l.again && reply == o.scan(l.clock, l.db, l.cursor) && reply.Page?
    requires next.got == l.got + [reply] && next.loopGuard == 0
    ensures Replies(o, start, next) && AllPages(l.got) && AllPages(next.got)
  {
    hide AllGiven, AllPages, Idle;
    MoreReplies(o, Visit(l.clock, l.db, l.cursor), l.got, 0, reply);
    assert next.got[|next.got|..] == [];
  }

  /** A deletion that was answered: its count is what it removed, or nothing if it was replayed. */
  lemma DeletedKeeps(o: Oracle, start: Loop, l: Loop, reply: ScanReply, db: set<Key>, replayed: bool, count: nat) returns (next: Loop)
    requires Sound(o) && Inv(o, start, l) && l.again
    requires reply == o.scan(l.clock, l.db, l.cursor) && Names(reply) != []
    requires db == Without(l.db, Names(reply)) && count == (if replayed then 0 else |l.db| - |db|)
    ensures Inv(o, start, next) && next.again == (count > 0 || NextCursor(reply) != INVALID) && |db| < |l.db|
    ensures next.db == db && next.clock == l.clock + 2 && next.replays == l.replays + (if replayed then 1 else 0)
    ensures next.removed == l.removed + count && next.loopGuard == 0
    ensures next.log == l.log + [Scanned(l.cursor, reply)] + [Deleted(Names(reply), count)]
    ensures next.cursor == if count > 0 then INVALID else NextCursor(reply)
  {
    hide AllGiven, Sweep, AllPages, Idle, NonEmptyNames, OnlyMatching, Sound, Replies, Orders;
    var v := Visit(l.clock, l.db, l.cursor);
    PageIsDeleted(o, start.db, v, Names(reply));
    next := Loop(db, l.clock + 2, l.replays + (if replayed then 1 else 0), l.removed + count, 0,
                 if count > 0 then INVALID else NextCursor(reply), l.got + [reply],
                 if count > 0 then [] else l.trail + [v],
                 l.log + [Scanned(l.cursor, reply)] + [Deleted(Names(reply), count)], count > 0 || NextCursor(reply) != INVALID);
    DeletedTally(o, start, l, next);
    OrderDeleted(l, next, reply, count);
    DeletedReplies(o, start, l, reply, next);
    SweepStep(o, l.trail, v, db, l.clock + 2);
    SweepStart(o, db, l.clock + 2);
  }

  /** What the commands answered tell about a removal that ended. Each was the one that was due, and a removal
      that returned had nothing left to do and returns the sum of their counts. Only the last reply can be of another form
      than a page. If all are pages, a removal that returned has left no matching key with a name; if the
      first is none, it has left everything. It gives up only on 1001 fruitless replies in a row. */
  ghost predicate Explained(o: Oracle, before: set<Key>, db: set<Key>, log: seq<Entry>, outcome: Outcome) {
    var got := RepliesIn(log);
    && Orderly(log)
    && (outcome.Returned? ==> Finished(log) && outcome.removed == Counted(log))
    && AllGiven(o, got)
    && (outcome.Returned? ==> got != [])
    && (outcome.Returned? && AllPages(got) && FullIterations(o) ==> forall k | k in db && o.matches(k) :: k == "")
    && (got != [] ==> AllPages(got[..|got| - 1]))
    && (got != [] && got[0].Malformed? ==> outcome == Returned(0) && db == before)
    && (outcome == EndlessLoop ==>
          && |got| > LOOP_LIMIT
          && Idle(got[|got| - 1 - LOOP_LIMIT..|got| - 1])
          && Names(got[|got| - 1]) == [])
  }

  lemma Ends(o: Oracle, start: Loop, l: Loop)
    requires Inv(o, start, l) && !l.again
    ensures Tally(o, start, l) && Explained(o, start.db, l.db, l.log, Returned(l.removed))
  {
    if AllPages(l.got) && FullIterations(o) {
      SweepEnd(o, l.trail, l.db, l.clock);
    }
  }

  lemma FirstIsPage(got: seq<ScanReply>)
    requires AllPages(got) && got != []
    ensures got[0].Page?
  {
  }

  lemma GivesUp(o: Oracle, start: Loop, l: Loop, reply: ScanReply)
    requires Inv(o, start, l) && l.again && l.loopGuard == LOOP_LIMIT
    requires reply == o.scan(l.clock, l.db, l.cursor) && Names(reply) == []
    ensures Explained(o, start.db, l.db, l.log + [Scanned(l.cursor, reply)], EndlessLoop)
    ensures OnlyMatching(o, start.db, l.db) && l.clock + 1 - start.clock <= 1002 * (|start.db| - |l.db| + 1)
  {
    hide AllGiven, AllPages, Idle, Names, OnlyMatching, FullIterations, Sweep;
    OneMoreEntry(l.log, Scanned(l.cursor, reply));
    MoreReplies(o, Visit(l.clock, l.db, l.cursor), l.got, 0, reply);
    var got := l.got + [reply];
    assert got[|got| - 1 - LOOP_LIMIT..|got| - 1] == l.got[|l.got| - LOOP_LIMIT..];
    assert got[..|got| - 1] == l.got;
    FirstIsPage(l.got);
  }

  lemma Repeated(o: Oracle, t: nat, retries: nat)
    ensures AlwaysRepeated(o, retries) && Command(o, t, retries).replied ==> Command(o, t, retries).carried
  {
  }

  lemma ScanUnanswered(o: Oracle, start: Loop, l: Loop, retries: nat)
    requires Inv(o, start, l) && l.again && !Command(o, l.clock, retries).replied
    ensures !Responsive(o, retries) && Explained(o, start.db, l.db, l.log, ExecFailed)
    ensures OnlyMatching(o, start.db, l.db) && l.clock + 1 - start.clock <= 1002 * (|start.db| - |l.db| + 1)
  {
    hide AllGiven, Idle, OnlyMatching, FullIterations, Sweep;
  }

  lemma DeletionUnanswered(o: Oracle, start: Loop, l: Loop, reply: ScanReply, db: set<Key>, retries: nat)
    requires Sound(o) && Inv(o, start, l) && l.again && !Command(o, l.clock + 1, retries).replied
    requires reply == o.scan(l.clock, l.db, l.cursor) && Names(reply) != []
    requires db == l.db || db == Without(l.db, Names(reply))
    ensures !Responsive(o, retries)
    ensures Explained(o, start.db, db, l.log + [Scanned(l.cursor, reply)], ExecFailed)
    ensures OnlyMatching(o, start.db, db) && l.clock + 2 - start.clock <= 1002 * (|start.db| - |db| + 1)
  {
    hide AllGiven, AllPages, Idle, NonEmptyNames, OnlyMatching, Sound, FullIterations, Sweep;
    OneMoreEntry(l.log, Scanned(l.cursor, reply));
    MoreReplies(o, Visit(l.clock, l.db, l.cursor), l.got, 0, reply);
    FirstIsPage(l.got + [reply]);
    PageIsDeleted(o, start.db, Visit(l.clock, l.db, l.cursor), Names(reply));
    assert !Responsive(o, retries);
  }

  class Redis {
    const server: Server
    const retries: nat

    constructor (server: Server, retries: nat)
      ensures this.server == server && this.retries == retries
    {
      this.server, this.retries := server, retries;
    }

    /** Runs a scan, which leaves nothing behind however often it is sent. */
    method ExecScan(cursor: string) returns (r: Option<ScanReply>)
      modifies server`clock, server`log
      ensures server.clock == old(server.clock) + 1
      ensures r == if Command(server.oracle, old(server.clock), retries).replied
                   then Some(server.oracle.scan(old(server.clock), server.db, cursor)) else None
      ensures server.log == old(server.log) + if r.Some? then [Scanned(cursor, r.value)] else []
    {
      var t, a := server.clock, 0;
      r := None;
      while a < retries && (server.oracle.fate(t, a) == Lost || server.oracle.fate(t, a) == Unsent)
        invariant a <= retries && Reached(server.oracle, t, a)
      {
        a := a + 1;
      }
      LastAttempt(server.oracle, t, retries, a);
      hide Command;
      server.clock := t + 1;
      if a < retries && server.oracle.fate(t, a) == Answered {
        r := Some(server.oracle.scan(t, server.db, cursor));
        server.log := server.log + [Scanned(cursor, r.value)];
      }
    }

    /** Runs a deletion. If an attempt that was carried out goes unanswered, the answer, if there is
        one, is that of a repetition, which finds nothing to remove. */
    method ExecDel(keys: seq<Key>) returns (count: Option<nat>)
      modifies server`db, server`clock, server`log, server`replayed
      ensures server.clock == old(server.clock) + 1
      ensures var e := Command(server.oracle, old(server.clock), retries);
        && server.db == (if e.replied || e.carried then Without(old(server.db), keys) else old(server.db))
        && server.replayed == old(server.replayed) + (if e.replied && e.carried then 1 else 0)
        && count == (if !e.replied then None
                     else if e.carried then Some(0)
                     else Some(|old(server.db)| - |server.db|))
      ensures server.log == old(server.log) + if count.Some? then [Deleted(keys, count.value)] else []
    {
      hide Without;
      var t, a, carried := server.clock, 0, false;
      count := None;
      while a < retries && (server.oracle.fate(t, a) == Lost || server.oracle.fate(t, a) == Unsent)
        invariant a <= retries && server.clock == t && server.replayed == old(server.replayed) && server.log == old(server.log)
        invariant Reached(server.oracle, t, a) && carried == exists b :: 0 <= b < a && server.oracle.fate(t, b) == Lost
        invariant server.db == if carried then Without(old(server.db), keys) else old(server.db)
      {
        var _ := server.Del(keys, a);
        TwiceIsOnce(old(server.db), keys);
        carried := carried || server.oracle.fate(t, a) == Lost;
        a := a + 1;
      }
      LastAttempt(server.oracle, t, retries, a);
      hide Command;
      if a < retries {
        count := server.Del(keys, a);
        TwiceIsOnce(old(server.db), keys);
        if carried && count.Some? {
          server.replayed := server.replayed + 1;
        }
        if count.Some? {
          server.log := server.log + [Deleted(keys, count.value)];
        }
      }
      server.clock := t + 1;
    }

    /** The keys of one page, without empty names; a reply of another form ends the iteration. */
    method Scan(cursor: Cursor) returns (keys: Option<seq<Key>>)
      modifies cursor, server`clock, server`log
      ensures server.clock == old(server.clock) + 1
      ensures var reply := server.oracle.scan(old(server.clock), server.db, old(cursor.value));
        if Command(server.oracle, old(server.clock), retries).replied then
          && server.log == old(server.log) + [Scanned(old(cursor.value), reply)]
          && cursor.value == NextCursor(reply) && keys == Some(Names(reply))
        else server.log == old(server.log) && keys == None
    {
      var r := ExecScan(cursor.value);
      if r.None? {
        return None;
      }
      cursor.Reset(); // stops or restarts the next scan in case of errors
      if r.value.Page? {
        cursor.Assign(r.value.cursor);
        var res := DropEmptyNames(r.value.keys);
        return Some(res);
      }
      return Some([]);
    }

    method DropEmptyNames(keys: seq<Key>) returns (res: seq<Key>)
      ensures res == NonEmptyNames(keys)
    {
      hide NonEmptyNames;
      res := [];
      NoNames([]);
      for i := 0 to |keys|
        invariant res == NonEmptyNames(keys[..i])
      {
        NextName(keys, i);
        if keys[i] != "" {
          res := res + [keys[i]];
        }
      }
      assert keys[..|keys|] == keys;
    }

    /** Deletes the keys; the count is of those removed, or zero if the deletion was replayed. */
    method Remove(keys: seq<Key>) returns (count: Option<nat>)
      modifies server`db, server`clock, server`log, server`replayed
      ensures keys == [] ==> count == Some(0) && unchanged(server)
      ensures keys != [] ==>
                var e := Command(server.oracle, old(server.clock), retries);
                && server.clock == old(server.clock) + 1
                && server.db == (if e.replied || e.carried then Without(old(server.db), keys) else old(server.db))
                && server.replayed == old(server.replayed) + (if e.replied && e.carried then 1 else 0)
                && count == (if !e.replied then None
                             else if e.carried then Some(0)
                             else Some(|old(server.db)| - |server.db|))
                && server.log == old(server.log) + if count.Some? then [Deleted(keys, count.value)] else []
    {
      if keys == [] {
        return Some(0);
      }
      count := ExecDel(keys);
    }

    /** Scans and deletes until a full iteration finds nothing. The count that is returned is right if and
        only if no deletion was replayed. A reply of another form ends the loop as if it were complete. */
    method RemoveX() returns (outcome: Outcome)
      requires Sound(server.oracle)
      modifies server`db, server`clock, server`log, server`replayed
      ensures OnlyMatching(server.oracle, old(server.db), server.db)
      ensures server.clock - old(server.clock) <= 1002 * (|old(server.db)| - |server.db| + 1)
      ensures outcome.Returned? ==>
                && outcome.removed <= |old(server.db)| - |server.db|
                && (outcome.removed == |old(server.db)| - |server.db| <==> server.replayed == old(server.replayed))
      ensures old(server.log) <= server.log
      ensures Explained(server.oracle, old(server.db), server.db, server.log[|old(server.log)|..], outcome)
      ensures AlwaysRepeated(server.oracle, retries) && outcome.Returned? ==> outcome.removed == 0
      ensures Responsive(server.oracle, retries) ==> outcome != ExecFailed
    {
      hide Inv, Sound, Without, OnlyMatching, AllGiven, Responsive, AlwaysRepeated, Command, Names, NextCursor, Explained;
      var found: nat, removed: nat, loopGuard: nat, prev: nat, again := 0, 0, 0, 0, true;
      var cursor := new Cursor();
      ghost var o, start := server.oracle, Begun(server.db, server.clock);
      ghost var l := start;
      Begins(o, server.db, server.clock);
      while again
        invariant fresh(cursor)
        invariant Inv(o, start, l)
        invariant l.db == server.db && l.clock == server.clock && l.replays == server.replayed - old(server.replayed)
        invariant l.removed == removed && l.loopGuard == loopGuard && l.cursor == cursor.value && l.again == again
        invariant AlwaysRepeated(o, retries) ==> removed == 0
        invariant server.log == old(server.log) + l.log && loopGuard <= LOOP_LIMIT
        decreases |server.db|, LOOP_LIMIT - loopGuard
      {
        prev := removed;
        var page := Scan(cursor);
        ghost var t := l.clock;
        if page.None? {
          ScanUnanswered(o, start, l, retries);
          return ExecFailed;
        }
        var keys := page.value;
        ghost var reply := o.scan(t, l.db, l.cursor);
        assert server.log[|old(server.log)|..] == l.log + [Scanned(l.cursor, reply)];
        if |keys| > 0 {
          loopGuard := 0;
          found := found + |keys|;
          var count := Remove(keys);
          if count.None? {
            DeletionUnanswered(o, start, l, reply, server.db, retries);
            assert server.log[|old(server.log)|..] == l.log + [Scanned(l.cursor, reply)];
            return ExecFailed;
          }
          l := DeletedKeeps(o, start, l, reply, server.db, Command(o, t + 1, retries).carried, count.value);
          Repeated(o, t + 1, retries);
          removed := removed + count.value;
          if removed != prev {
            cursor.Reset(); // the cursor is of no use after a deletion
          }
        } else {
          loopGuard := loopGuard + 1;
          if loopGuard > LOOP_LIMIT {
            GivesUp(o, start, l, reply);
            return EndlessLoop;
          }
          l := SkippedKeeps(o, start, l, reply);
        }
        again := cursor.IsValid() || removed != prev;
      }
      Ends(o, start, l);
      return Returned(removed);
    }
  }

  // ---------- where it fails ----------

  /** A server that answers no scan with a page: the removal ends at once, as if it were complete. */
  method NotAPage() returns (outcome: Outcome, left: set<Key>)
    ensures outcome == Returned(0) && left == {"a"}
  {
    var o := Oracle((t, db, c) => Malformed, (t, a) => Answered, k => true);
    var server := new Server(o, {"a"});
    var redis := new Redis(server, 50);
    outcome := redis.RemoveX();
    left := server.db;
    FirstAttempt(o);
    assert RepliesIn(server.log[0..])[0] in RepliesIn(server.log[0..]);
  }

  /** A server of one key over connections that fail once after every command. */
  const REPEATING := Oracle((t, db, c) => Page(INVALID, if "a" in db then ["a"] else []),
                            (t, a) => if a == 0 then Lost else Answered, k => k == "a")

  /** All keys are removed, and the count is zero. */
  method AllRepeated() returns (outcome: Outcome, left: set<Key>)
    ensures outcome == Returned(0) && left == {}
  {
    hide Sound, FullIterations, Responsive, AlwaysRepeated, Explained;
    var server := new Server(REPEATING, {"a"});
    var redis := new Redis(server, 50);
    RepeatingKeepsPromises();
    SecondAttempt(REPEATING);
    outcome := redis.RemoveX();
    left := server.db;
    RepeatingEnds(left, server.log[0..], outcome);
  }

  lemma RepeatingKeepsPromises()
    ensures Sound(REPEATING) && FullIterations(REPEATING)
  {
    var o := REPEATING;
    forall trail: seq<Visit>, k: Key | trail != [] && Trail(o, trail, INVALID) && Throughout(trail, k) && o.matches(k)
      ensures exists i :: 0 <= i < |trail| && k in ReplyTo(o, trail[i]).keys
    {
      assert k in ReplyTo(o, trail[0]).keys;
    }
  }

  lemma RepeatingEnds(db: set<Key>, log: seq<Entry>, outcome: Outcome)
    requires Explained(REPEATING, {"a"}, db, log, outcome)
    ensures outcome != EndlessLoop && (outcome.Returned? ==> "a" !in db)
  {
    hide Trail, Throughout, FullIterations, RepliesIn, Orderly, Finished, Counted;
    var got := RepliesIn(log);
    RepeatingKeepsPromises();
    assert forall r | r in got :: r.Page? && NextCursor(r) == INVALID;
    assert |got| > LOOP_LIMIT ==> got[|got| - 1 - LOOP_LIMIT..|got| - 1][0] in got;
  }

  lemma FirstAttempt(o: Oracle)
    requires forall t, a :: o.fate(t, a) == Answered
    ensures Responsive(o, 50)
  {
    forall t
      ensures Meets(o, t, 50, Answered)
    {
      assert o.fate(t, 0) == Answered;
    }
  }

  lemma SecondAttempt(o: Oracle)
    requires forall t, a :: o.fate(t, a) == if a == 0 then Lost else Answered
    ensures Responsive(o, 50) && AlwaysRepeated(o, 50)
  {
    forall t
      ensures Meets(o, t, 50, Answered) && Meets(o, t, 50, Lost)
    {
      assert o.fate(t, 0) == Lost && o.fate(t, 1) == Answered;
    }
  }

  lemma Shrinks(a: set<Key>, b: set<Key>)
    requires a < b
    ensures |a| < |b|
  {
    assert |b - a| > 0 && b == a + (b - a);
  }
}
