/** The bounded fixed-window rate limiter: one insertion-ordered table is both the counter and
    the recency list, and at most `maxKeys` keys are remembered. */
module RateLimit {
  import opened Sequences

  datatype Key = Key(text: string)

  const MAX_KEYS := 100_000
  const MAX_LIMIT := 1_000_000
  const MAX_WINDOW_MS := 24 * 60 * 60 * 1_000

  datatype Config = Config(limit: int, windowMs: int, maxKeys: int) {
    predicate Valid() {
      1 <= limit <= MAX_LIMIT && 1 <= windowMs <= MAX_WINDOW_MS && 1 <= maxKeys <= MAX_KEYS
    }
  }

  datatype Entry = Entry(count: int, windowStartedAt: int)
  datatype Answer = Allowed | Denied(retryAfterSeconds: int)
  datatype Call = Call(key: Key, now: int)

  function CeilDiv(a: int, b: int): int
    requires b > 0
  {
    (a + b - 1) / b
  }

  // ---------------------------------------------------------------- one key, never forgotten

  predicate Fresh(c: Config, e: Option<Entry>, now: int) {
    e.None? || now < e.value.windowStartedAt || now - e.value.windowStartedAt >= c.windowMs
  }

  /** The ideal limiter of one key: a fixed window that opens at the first call after the last one ended. */
  function IdealEntry(c: Config, e: Option<Entry>, now: int): Entry {
    if Fresh(c, e, now) then Entry(1, now)
    else if e.value.count >= c.limit then e.value
    else Entry(e.value.count + 1, e.value.windowStartedAt)
  }

  function IdealAnswer(c: Config, e: Option<Entry>, now: int): Answer {
    if Fresh(c, e, now) || e.value.count < c.limit then Allowed
    else Denied(CeilDiv(e.value.windowStartedAt + c.windowMs - now, 1_000))
  }

  // ---------------------------------------------------------------- the bounded limiter

  /** An insertion-ordered map: its entries from least to most recently acquired. */
  datatype Slot = Slot(key: Key, entry: Entry)
  type Table = seq<Slot>

  function Lookup(t: Table, k: Key): Option<Entry> {
    if t == [] then None else if t[0].key == k then Some(t[0].entry) else Lookup(t[1..], k)
  }

  function Without(t: Table, k: Key): (r: Table)
    ensures |r| <= |t|
  {
    if t == [] then [] else if t[0].key == k then Without(t[1..], k) else [t[0]] + Without(t[1..], k)
  }

  function LastN<T>(s: seq<T>, n: int): seq<T> {
    if 0 <= n <= |s| then s[|s| - n..] else s
  }

  /** One call, as a least-recently-used cache of `maxKeys` slots in front of the ideal limiter. */
  function Acquired(c: Config, t: Table, call: Call): Table {
    LastN(Without(t, call.key) + [Slot(call.key, IdealEntry(c, Lookup(t, call.key), call.now))], c.maxKeys)
  }

  function Run(c: Config, h: seq<Call>): Table {
    if h == [] then [] else Acquired(c, Run(c, h[..|h| - 1]), h[|h| - 1])
  }

  /** What the bounded limiter answers to `call` after the history `h`. */
  function AnswerAfter(c: Config, h: seq<Call>, call: Call): Answer {
    IdealAnswer(c, Lookup(Run(c, h), call.key), call.now)
  }

  ghost predicate Distinct(t: Table) {
    forall i, j :: 0 <= i < j < |t| ==> t[i].key != t[j].key
  }

  lemma {:induction false} LookupFinds(t: Table, k: Key)
    ensures Lookup(t, k).Some? <==> exists i :: 0 <= i < |t| && t[i].key == k
    ensures Lookup(t, k).Some? ==> Slot(k, Lookup(t, k).value) in t
  {
    if t != [] {
      LookupFinds(t[1..], k);
      if t[0].key == k {
      } else if Lookup(t, k).Some? {
        var i :| 0 <= i < |t[1..]| && t[1..][i].key == k;
        assert t[i + 1].key == k;
      } else {
        forall i | 0 <= i < |t| ensures t[i].key != k {
          assert i > 0 ==> t[i] == t[1..][i - 1];
        }
      }
    }
  }

  lemma {:induction false} WithoutAbsent(t: Table, k: Key)
    requires Lookup(t, k).None?
    ensures Without(t, k) == t
  {
    if t != [] {
      WithoutAbsent(t[1..], k);
    }
  }

  lemma {:induction false} WithoutMembers(t: Table, k: Key)
    ensures forall x :: x in Without(t, k) <==> x in t && x.key != k
  {
    if t != [] {
      WithoutMembers(t[1..], k);
    }
  }

  lemma {:induction false} WithoutDistinct(t: Table, k: Key)
    requires Distinct(t)
    ensures Distinct(Without(t, k))
    ensures |Without(t, k)| == |t| - (if Lookup(t, k).Some? then 1 else 0)
  {
    if t != [] {
      WithoutDistinct(t[1..], k);
      LookupFinds(t[1..], t[0].key);
      if t[0].key == k {
        WithoutAbsent(t[1..], k);
      } else {
        WithoutMembers(t[1..], k);
      }
    }
  }

  lemma AcquiredIsDistinct(c: Config, t: Table, call: Call)
    requires c.Valid() && Distinct(t)
    ensures Distinct(Acquired(c, t, call)) && |Acquired(c, t, call)| <= c.maxKeys
  {
    WithoutDistinct(t, call.key);
    WithoutMembers(t, call.key);
  }

  lemma {:induction false} RunIsDistinct(c: Config, h: seq<Call>)
    requires c.Valid()
    ensures Distinct(Run(c, h)) && |Run(c, h)| <= c.maxKeys
  {
    if h != [] {
      RunIsDistinct(c, h[..|h| - 1]);
      AcquiredIsDistinct(c, Run(c, h[..|h| - 1]), h[|h| - 1]);
    }
  }

  // ---------------------------------------------------------------- the limiter as written

  /** `entries.set(key, entry)`: a new key goes to the end, an old one keeps its place. */
  function Set(t: Table, key: Key, entry: Entry): Table {
    if t == [] then [Slot(key, entry)]
    else if t[0].key == key then [Slot(key, entry)] + t[1..]
    else [t[0]] + Set(t[1..], key, entry)
  }

  lemma {:induction false} SetAtEnd(t: Table, k: Key, e: Entry)
    requires Lookup(t, k).None?
    ensures Set(t, k, e) == t + [Slot(k, e)]
    ensures forall e' :: Set(Set(t, k, e'), k, e) == Set(t, k, e)
  {
    if t != [] {
      SetAtEnd(t[1..], k, e);
    }
  }

  lemma RunGrows(c: Config, h: seq<Call>, call: Call)
    ensures Run(c, h + [call]) == Acquired(c, Run(c, h), call)
  {
    assert (h + [call])[..|h|] == h;
  }

  /** Unless the key is new and the table full, the new table is the old one with the key's entry moved to the end. */
  lemma AcquiredByMoving(c: Config, h: seq<Call>, call: Call)
    requires c.Valid()
    ensures var t, k := Run(c, h), call.key;
            var e := IdealEntry(c, Lookup(t, k), call.now);
            && (Lookup(t, k).Some? || |t| < c.maxKeys ==> Run(c, h + [call]) == Set(Without(t, k), k, e))
            && (Lookup(t, k).Some? ==> Set(Set(Without(t, k), k, Lookup(t, k).value), k, e) == Set(Without(t, k), k, e))
  {
    RunGrows(c, h, call);
    RunIsDistinct(c, h);
    var t, k := Run(c, h), call.key;
    WithoutDistinct(t, k);
    WithoutMembers(t, k);
    LookupFinds(Without(t, k), k);
    SetAtEnd(Without(t, k), k, IdealEntry(c, Lookup(t, k), call.now));
  }

  lemma WithoutFirst(t: Table, k: Key)
    requires t != [] && Distinct(t)
    ensures Without(t, t[0].key) == t[1..]
    ensures Lookup(t, k).None? ==> Lookup(t[1..], k).None?
  {
    LookupFinds(t[1..], t[0].key);
    WithoutAbsent(t[1..], t[0].key);
  }

  lemma FirstIsEvicted(c: Config, h: seq<Call>, call: Call)
    requires c.Valid() && Lookup(Run(c, h), call.key).None? && |Run(c, h)| >= c.maxKeys
    ensures var t := Run(c, h);
            t != [] && Run(c, h + [call]) == Set(Without(t, t[0].key), call.key, Entry(1, call.now))
  {
    RunGrows(c, h, call);
    RunIsDistinct(c, h);
    var t, k := Run(c, h), call.key;
    var slot := Slot(k, Entry(1, call.now));
    WithoutAbsent(t, k);
    WithoutFirst(t, k);
    SetAtEnd(t[1..], k, slot.entry);
    hide Run, Set, Without, Lookup;
    assert Run(c, h + [call]) == LastN(t + [slot], c.maxKeys);
    assert (t + [slot])[1..] == t[1..] + [slot];
    assert LastN(t + [slot], c.maxKeys) == t[1..] + [slot];
  }

  /** The seconds as the program computes them, guarded against values below one. */
  function Seconds(c: Config, e: Entry, now: int): int {
    var remaining := c.windowMs - (now - e.windowStartedAt);
    var seconds := CeilDiv(if 1 > remaining then 1 else remaining, 1_000);
    if 1 > seconds then 1 else seconds
  }

  /** A call that opens a window: the table `Acquire` has to reach, as a deletion and an insertion. */
  lemma OpensWindow(c: Config, h: seq<Call>, t: Table, call: Call)
    requires c.Valid() && t == Run(c, h) && Fresh(c, Lookup(t, call.key), call.now)
    ensures AnswerAfter(c, h, call) == Allowed
    ensures Lookup(t, call.key).None? && |t| >= c.maxKeys ==>
              t != [] && Run(c, h + [call]) == Set(Without(t, t[0].key), call.key, Entry(1, call.now))
    ensures Lookup(t, call.key).None? && |t| < c.maxKeys ==> Run(c, h + [call]) == Set(t, call.key, Entry(1, call.now))
    ensures Lookup(t, call.key).Some? ==> Run(c, h + [call]) == Set(Without(t, call.key), call.key, Entry(1, call.now))
  {
    hide Run, Acquired, Set, Without, Lookup;
    AcquiredByMoving(c, h, call);
    if Lookup(t, call.key).None? {
      WithoutAbsent(t, call.key);
      if |t| >= c.maxKeys {
        FirstIsEvicted(c, h, call);
      }
    }
  }

  lemma SecondsRoundUp(c: Config, e: Entry, now: int)
    requires now - e.windowStartedAt < c.windowMs
    ensures Seconds(c, e, now) == CeilDiv(e.windowStartedAt + c.windowMs - now, 1_000)
  {
    assert c.windowMs - (now - e.windowStartedAt) == e.windowStartedAt + c.windowMs - now;
  }

  /** A call within the key's window: moved to the end, and counted unless the limit is reached. */
  lemma StaysInWindow(c: Config, h: seq<Call>, t: Table, call: Call)
    requires c.Valid() && t == Run(c, h) && !Fresh(c, Lookup(t, call.key), call.now)
    ensures var e, moved := Lookup(t, call.key).value, Set(Without(t, call.key), call.key, Lookup(t, call.key).value);
            if e.count >= c.limit
            then Run(c, h + [call]) == moved && AnswerAfter(c, h, call) == Denied(Seconds(c, e, call.now))
            else Run(c, h + [call]) == Set(moved, call.key, e.(count := e.count + 1))
                 && AnswerAfter(c, h, call) == Allowed
  {
    hide Run, Acquired, Set, Without, Lookup, CeilDiv, Seconds;
    AcquiredByMoving(c, h, call);
    var e := Lookup(t, call.key).value;
    var moved := Set(Without(t, call.key), call.key, e);
    SecondsRoundUp(c, e, call.now);
    assert e.count >= c.limit ==>
             Run(c, h + [call]) == moved && AnswerAfter(c, h, call) == Denied(Seconds(c, e, call.now));
    assert e.count < c.limit ==>
             Run(c, h + [call]) == Set(moved, call.key, e.(count := e.count + 1))
             && AnswerAfter(c, h, call) == Allowed;
  }

  class BoundedRateLimiter {
    const config: Config
    var entries: Table
    ghost var history: seq<Call>

    ghost predicate Valid()
      reads this
    {
      config.Valid() && entries == Run(config, history)
    }

    constructor (config: Config)
      requires config.Valid()
      ensures Valid() && this.config == config && history == []
    {
      this.config := config;
      entries, history := [], [];
    }

    /** The program's constructor throws on a configuration outside its bounds; here the result is null. */
    static method Create(config: Config) returns (limiter: BoundedRateLimiter?)
      ensures limiter != null <==> 1 <= config.limit <= 1_000_000 && 1 <= config.windowMs <= 24 * 60 * 60 * 1_000
                                   && 1 <= config.maxKeys <= 100_000
      ensures limiter != null ==> fresh(limiter) && limiter.Valid() && limiter.config == config && limiter.history == []
    {
      if !(1 <= config.limit <= MAX_LIMIT) || !(1 <= config.windowMs <= MAX_WINDOW_MS)
         || !(1 <= config.maxKeys <= MAX_KEYS) {
        return null;
      }
      limiter := new BoundedRateLimiter(config);
    }

    method Size() returns (size: nat)
      requires Valid()
      ensures size == |entries| && size <= config.maxKeys
    {
      size := |entries|;
      RunIsDistinct(config, history);
    }

    method Acquire(key: Key, now: int) returns (answer: Answer)
      requires Valid()
      modifies this`entries, this`history
      ensures Valid() && history == old(history) + [Call(key, now)]
      ensures answer == AnswerAfter(config, old(history), Call(key, now))
    {
      ghost var call := Call(key, now);
      ghost var before := history;
      var existing := Lookup(entries, key);
      if existing.None? || now < existing.value.windowStartedAt
         || now - existing.value.windowStartedAt >= config.windowMs {
        OpensWindow(config, history, entries, call);
        hide Run, AnswerAfter, Set, Without, Lookup;
        if existing.None? && |entries| >= config.maxKeys {
          var oldestKey := entries[0].key;
          entries := Without(entries, oldestKey);
        } else if existing.Some? {
          entries := Without(entries, key);
        }
        entries := Set(entries, key, Entry(1, now));
        history := history + [call];
        answer := Allowed;
        assert entries == Run(config, history) && answer == AnswerAfter(config, before, call);
        return;
      }
      StaysInWindow(config, history, entries, call);
      hide Run, AnswerAfter, Set, Without, Lookup, CeilDiv;
      entries := Without(entries, key);
      entries := Set(entries, key, existing.value);
      history := history + [call];
      if existing.value.count >= config.limit {
        var remaining := config.windowMs - (now - existing.value.windowStartedAt);
        var remainingMs := if 1 > remaining then 1 else remaining;
        var seconds := CeilDiv(remainingMs, 1_000);
        answer := Denied(if 1 > seconds then 1 else seconds);
      } else {
        entries := Set(entries, key, existing.value.(count := existing.value.count + 1));
        answer := Allowed;
      }
      assert entries == Run(config, history) && answer == AnswerAfter(config, before, call);
    }
  }
}
