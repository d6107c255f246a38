/** What the bounded limiter does over whole runs: which keys it still remembers, when it answers
    like a limiter that never forgets, how much it admits, and what its `Retry-After` is worth. */
module RateLimitRuns {
  import opened Sequences
  import opened RateLimit

  // ---------------------------------------------------------------- recency

  function WithoutKey(s: seq<Key>, k: Key): (r: seq<Key>)
    ensures |r| <= |s|
  {
    if s == [] then [] else if s[0] == k then WithoutKey(s[1..], k) else [s[0]] + WithoutKey(s[1..], k)
  }

  /** All keys ever acquired, in the order of their last acquire. */
  function Recency(h: seq<Call>): seq<Key> {
    if h == [] then []
    else WithoutKey(Recency(h[..|h| - 1]), h[|h| - 1].key) + [h[|h| - 1].key]
  }

  predicate Called(h: seq<Call>, k: Key) {
    h != [] && (h[|h| - 1].key == k || Called(h[..|h| - 1], k))
  }

  /** The distinct keys acquired since the last acquire of `k`. */
  function Since(h: seq<Call>, k: Key): set<Key> {
    if h == [] || h[|h| - 1].key == k then {} else Since(h[..|h| - 1], k) + {h[|h| - 1].key}
  }

  function Keys(t: Table): (r: seq<Key>)
    ensures |r| == |t|
  {
    if t == [] then [] else [t[0].key] + Keys(t[1..])
  }

  lemma {:induction false} WithoutKeyFacts(s: seq<Key>, k: Key)
    ensures forall x :: x in WithoutKey(s, k) <==> x in s && x != k
    ensures NoRepeats(s) ==> NoRepeats(WithoutKey(s, k))
    ensures NoRepeats(s) ==> |WithoutKey(s, k)| >= |s| - 1
    ensures k !in s ==> WithoutKey(s, k) == s
  {
    if s != [] {
      WithoutKeyFacts(s[1..], k);
      if NoRepeats(s) {
        assert NoRepeats(s[1..]) && s[0] !in WithoutKey(s[1..], k);
      }
    }
  }

  lemma {:induction false} WithoutKeyConcat(a: seq<Key>, b: seq<Key>, k: Key)
    ensures WithoutKey(a + b, k) == WithoutKey(a, k) + WithoutKey(b, k)
  {
    if a == [] {
      assert a + b == b;
    } else {
      assert (a + b)[0] == a[0] && (a + b)[1..] == a[1..] + b;
      WithoutKeyConcat(a[1..], b, k);
    }
  }

  lemma {:induction false} KeysOfWithout(t: Table, k: Key)
    ensures Keys(Without(t, k)) == WithoutKey(Keys(t), k)
  {
    if t != [] {
      KeysOfWithout(t[1..], k);
    }
  }

  lemma {:induction false} KeysAt(t: Table)
    ensures forall i :: 0 <= i < |t| ==> Keys(t)[i] == t[i].key
  {
    if t != [] {
      KeysAt(t[1..]);
    }
  }

  lemma {:induction false} RecencyIsDistinct(h: seq<Call>)
    ensures NoRepeats(Recency(h))
    ensures forall k :: k in Recency(h) <==> Called(h, k)
  {
    if h != [] {
      RecencyIsDistinct(h[..|h| - 1]);
      WithoutKeyFacts(Recency(h[..|h| - 1]), h[|h| - 1].key);
    }
  }

  /** Moving a key to the end and truncating commutes with having truncated before. */
  lemma TruncateMove(r: seq<Key>, k: Key, n: nat)
    requires NoRepeats(r) && n >= 1
    ensures LastN(WithoutKey(LastN(r, n), k) + [k], n) == LastN(WithoutKey(r, k) + [k], n)
  {
    if |r| >= n {
      var front, kept := r[..|r| - n], r[|r| - n..];
      assert r == front + kept && LastN(r, n) == kept;
      WithoutKeyConcat(front, kept, k);
      SuffixLength(r, k, |r| - n);
      hide WithoutKey, NoRepeats, LastN;
      var moved := WithoutKey(kept, k) + [k];
      assert WithoutKey(r, k) + [k] == WithoutKey(front, k) + moved;
      LastNOfConcat(WithoutKey(front, k), moved, n);
      assert LastN(WithoutKey(LastN(r, n), k) + [k], n) == LastN(WithoutKey(r, k) + [k], n);
    }
  }

  lemma SuffixLength(r: seq<Key>, k: Key, i: nat)
    requires NoRepeats(r) && i <= |r|
    ensures |WithoutKey(r[i..], k)| >= |r[i..]| - 1
  {
    assert NoRepeats(r[i..]);
    WithoutKeyFacts(r[i..], k);
  }

  lemma LastNOfConcat(a: seq<Key>, b: seq<Key>, n: nat)
    requires |b| >= n
    ensures LastN(a + b, n) == LastN(b, n)
  {
  }

  lemma KeysOfAcquired(c: Config, t: Table, call: Call)
    ensures Keys(Acquired(c, t, call)) == LastN(Keys(Without(t, call.key)) + [call.key], c.maxKeys)
  {
    var kept, slot := Without(t, call.key), Slot(call.key, IdealEntry(c, Lookup(t, call.key), call.now));
    KeysSnoc(kept, slot);
    KeysOfLast(kept + [slot], c.maxKeys);
    hide Keys, Without, Lookup, LastN;
    assert Keys(Acquired(c, t, call)) == LastN(Keys(kept) + [call.key], c.maxKeys);
  }

  lemma KeysSnoc(t: Table, slot: Slot)
    ensures Keys(t + [slot]) == Keys(t) + [slot.key]
  {
    KeysAt(t);
    KeysAt(t + [slot]);
    hide Keys;
    assert Keys(t + [slot]) == Keys(t) + [slot.key];
  }

  lemma KeysOfLast(t: Table, n: int)
    ensures Keys(LastN(t, n)) == LastN(Keys(t), n)
  {
    KeysAt(t);
    KeysAt(LastN(t, n));
    hide Keys;
    assert Keys(LastN(t, n)) == LastN(Keys(t), n);
  }

  /** The table's iteration order is the recency order, cut to the last `maxKeys` keys:
      what is evicted is always the least recently acquired key. */
  lemma {:induction false} OrderIsRecency(c: Config, h: seq<Call>)
    requires c.Valid()
    ensures Keys(Run(c, h)) == LastN(Recency(h), c.maxKeys)
  {
    if h != [] {
      var init, call := h[..|h| - 1], h[|h| - 1];
      OrderIsRecency(c, init);
      RecencyIsDistinct(init);
      TruncateMove(Recency(init), call.key, c.maxKeys);
      KeysOfWithout(Run(c, init), call.key);
      KeysOfAcquired(c, Run(c, init), call);
    }
  }

  /** After the last acquire of `k` the recency order lists exactly the distinct keys acquired since. */
  lemma {:induction false} RecencyAfter(h: seq<Call>, k: Key) returns (older: seq<Key>, newer: seq<Key>)
    requires Called(h, k)
    ensures Recency(h) == older + [k] + newer
    ensures forall x :: x in newer <==> x in Since(h, k)
    decreases |h|
  {
    var init, last := h[..|h| - 1], h[|h| - 1].key;
    if last == k {
      older, newer := WithoutKey(Recency(init), k), [];
    } else {
      var o, n := RecencyAfter(init, k);
      MoveAcross(o, k, n, last);
      WithoutKeyFacts(n, last);
      older, newer := WithoutKey(o, last), WithoutKey(n, last) + [last];
    }
  }

  lemma MoveAcross(a: seq<Key>, k: Key, b: seq<Key>, moved: Key)
    requires k != moved
    ensures WithoutKey(a + [k] + b, moved) + [moved] == WithoutKey(a, moved) + [k] + (WithoutKey(b, moved) + [moved])
  {
    WithoutKeyConcat(a + [k], b, moved);
    WithoutKeyConcat(a, [k], moved);
    assert WithoutKey([k], moved) == [k];
  }

  lemma {:induction false} DistinctCount(s: seq<Key>, members: set<Key>)
    requires NoRepeats(s) && forall x :: x in s <==> x in members
    ensures |members| == |s|
  {
    if s == [] {
      assert members == {};
    } else {
      assert forall x :: x in s[1..] <==> x in members - {s[0]};
      DistinctCount(s[1..], members - {s[0]});
    }
  }

  /** Exactly the keys with fewer than `maxKeys` distinct other keys since their last acquire are remembered. */
  lemma Remembered(c: Config, h: seq<Call>, k: Key)
    requires c.Valid()
    ensures Lookup(Run(c, h), k).Some? <==> Called(h, k) && |Since(h, k)| < c.maxKeys
  {
    OrderIsRecency(c, h);
    RecencyIsDistinct(h);
    LookupFinds(Run(c, h), k);
    KeysAt(Run(c, h));
    if Called(h, k) {
      var older, newer := RecencyAfter(h, k);
      DistinctInside(older, k, newer);
      DistinctCount(newer, Since(h, k));
      InLastN(older, k, newer, c.maxKeys);
    }
  }

  lemma DistinctInside(older: seq<Key>, k: Key, newer: seq<Key>)
    requires NoRepeats(older + [k] + newer)
    ensures NoRepeats(newer) && k !in newer && k !in older
  {
    var r := older + [k] + newer;
    assert forall i :: 0 <= i < |newer| ==> r[|older| + 1 + i] == newer[i];
    assert forall i :: 0 <= i < |older| ==> r[i] == older[i];
    assert r[|older|] == k;
  }

  lemma InLastN(older: seq<Key>, k: Key, newer: seq<Key>, n: nat)
    requires k !in newer
    ensures |newer| < n ==> k in LastN(older + [k] + newer, n)
    ensures |newer| >= n ==> k !in LastN(older + [k] + newer, n)
  {
    var kept := LastN(older + [k] + newer, n);
    if |newer| < n {
      assert kept[|kept| - 1 - |newer|] == k;
    } else {
      assert kept == newer[|newer| - n..];
    }
  }

  // ---------------------------------------------------------------- agreement with the ideal limiter

  /** A key that was called and has since met fewer than `maxKeys` distinct other keys. */
  predicate Recent(c: Config, h: seq<Call>, k: Key) {
    Called(h, k) && |Since(h, k)| < c.maxKeys
  }

  /** The window of `k` in a limiter that forgets it exactly when `maxKeys` other keys intervene. */
  function Kept(c: Config, h: seq<Call>, k: Key): Option<Entry> {
    if h == [] then None
    else
      var init, call := h[..|h| - 1], h[|h| - 1];
      if call.key != k then Kept(c, init, k)
      else Some(IdealEntry(c, if Recent(c, init, k) then Kept(c, init, k) else None, call.now))
  }

  /** The window of `k` in a limiter that never forgets a key. */
  function Ideal(c: Config, h: seq<Call>, k: Key): Option<Entry> {
    if h == [] then None
    else
      var init, call := h[..|h| - 1], h[|h| - 1];
      if call.key != k then Ideal(c, init, k) else Some(IdealEntry(c, Ideal(c, init, k), call.now))
  }

  lemma {:induction false} KeptIffCalled(c: Config, h: seq<Call>, k: Key)
    ensures Kept(c, h, k).Some? <==> Called(h, k)
    ensures Ideal(c, h, k).Some? <==> Called(h, k)
  {
    if h != [] {
      KeptIffCalled(c, h[..|h| - 1], k);
    }
  }

  lemma {:induction false} LookupUnique(t: Table, i: nat)
    requires Distinct(t) && i < |t|
    ensures Lookup(t, t[i].key) == Some(t[i].entry)
  {
    if i > 0 {
      LookupUnique(t[1..], i - 1);
    }
  }

  lemma LookupAfter(c: Config, t: Table, call: Call, k: Key)
    requires c.Valid() && Distinct(t)
    ensures k == call.key ==> Lookup(Acquired(c, t, call), k) == Some(IdealEntry(c, Lookup(t, k), call.now))
    ensures k != call.key && Lookup(Acquired(c, t, call), k).Some? ==>
              Lookup(Acquired(c, t, call), k) == Lookup(t, k)
  {
    AcquiredIsDistinct(c, t, call);
    var r := Acquired(c, t, call);
    if k == call.key {
      LookupUnique(r, |r| - 1);
    } else if Lookup(r, k).Some? {
      LookupFinds(r, k);
      WithoutMembers(t, call.key);
      var slot := Slot(k, Lookup(r, k).value);
      assert slot in t;
      var i :| 0 <= i < |t| && t[i] == slot;
      LookupUnique(t, i);
    }
  }

  /** For every run and every key: the bounded table holds the window of exactly the recent keys. */
  lemma {:induction false} TableIsKept(c: Config, h: seq<Call>, k: Key)
    requires c.Valid()
    ensures Lookup(Run(c, h), k) == if Recent(c, h, k) then Kept(c, h, k) else None
  {
    Remembered(c, h, k);
    if h != [] {
      var init, call := h[..|h| - 1], h[|h| - 1];
      RunIsDistinct(c, init);
      LookupAfter(c, Run(c, init), call, k);
      TableIsKept(c, init, k);
      hide Run, Acquired, Lookup, IdealEntry;
      if call.key != k && Recent(c, h, k) {
        Remembered(c, init, k);
        SinceGrows(h, k);
      }
    }
  }

  lemma SinceGrows(h: seq<Call>, k: Key)
    requires h != [] && h[|h| - 1].key != k
    ensures |Since(h[..|h| - 1], k)| <= |Since(h, k)|
  {
    var last := h[|h| - 1].key;
    if last !in Since(h[..|h| - 1], k) {
      assert |Since(h, k)| == |Since(h[..|h| - 1], k)| + 1;
    } else {
      assert Since(h, k) == Since(h[..|h| - 1], k);
    }
  }

  /** The exact answer of the bounded limiter, for every run and every call. */
  lemma BoundedAnswer(c: Config, h: seq<Call>, call: Call)
    requires c.Valid()
    ensures AnswerAfter(c, h, call)
         == IdealAnswer(c, if Recent(c, h, call.key) then Kept(c, h, call.key) else None, call.now)
  {
    TableIsKept(c, h, call.key);
  }

  /** Every call of `k` in `h` but its first found `k` recent. */
  predicate NeverForgotten(c: Config, h: seq<Call>, k: Key) {
    h == [] ||
    (var init := h[..|h| - 1];
     && NeverForgotten(c, init, k)
     && (h[|h| - 1].key == k && Called(init, k) ==> Recent(c, init, k)))
  }

  lemma {:induction false} KeptIsIdeal(c: Config, h: seq<Call>, k: Key)
    requires NeverForgotten(c, h, k)
    ensures Kept(c, h, k) == Ideal(c, h, k)
  {
    if h != [] {
      KeptIsIdeal(c, h[..|h| - 1], k);
      KeptIffCalled(c, h[..|h| - 1], k);
    }
  }

  /** A key that always returns before `maxKeys` other keys did gets the answers of the ideal limiter. */
  lemma AgreesWithIdeal(c: Config, h: seq<Call>, call: Call)
    requires c.Valid() && NeverForgotten(c, h + [call], call.key)
    ensures AnswerAfter(c, h, call) == IdealAnswer(c, Ideal(c, h, call.key), call.now)
  {
    assert (h + [call])[..|h|] == h;
    BoundedAnswer(c, h, call);
    KeptIsIdeal(c, h, call.key);
    KeptIffCalled(c, h, call.key);
  }

  // ---------------------------------------------------------------- arithmetic over runs

  lemma {:induction false} CountsAreBounded(c: Config, h: seq<Call>, k: Key)
    requires c.Valid()
    ensures Kept(c, h, k).Some? ==> 1 <= Kept(c, h, k).value.count <= c.limit
  {
    if h != [] {
      CountsAreBounded(c, h[..|h| - 1], k);
    }
  }

  predicate Monotone(h: seq<Call>) {
    |h| < 2 || (h[|h| - 2].now <= h[|h| - 1].now && Monotone(h[..|h| - 1]))
  }

  /** Admissions of `k` in the half-open interval of one window length that starts at `from`. */
  function Admissions(c: Config, h: seq<Call>, k: Key, from: int): nat {
    if h == [] then 0
    else
      var init, call := h[..|h| - 1], h[|h| - 1];
      Admissions(c, init, k, from) +
      if call.key == k && from <= call.now < from + c.windowMs && AnswerAfter(c, init, call).Allowed? then 1 else 0
  }

  /** How the admissions of an interval follow from the current window of the key. */
  ghost predicate AdmissionsFollow(c: Config, h: seq<Call>, k: Key, from: int, adm: nat) {
    var w := Kept(c, h, k);
    && (h != [] && h[|h| - 1].now < from ==> adm == 0)
    && (w.None? ==> adm == 0)
    && (w.Some? ==>
          && h != [] && w.value.windowStartedAt <= h[|h| - 1].now
          && (w.value.windowStartedAt < from ==> adm <= w.value.count - 1)
          && (from <= w.value.windowStartedAt < from + c.windowMs ==> adm <= c.limit - 1 + w.value.count)
          && (from + c.windowMs <= w.value.windowStartedAt ==> adm <= 2 * c.limit - 1))
  }

  lemma {:induction false} AdmissionsByWindow(c: Config, h: seq<Call>, k: Key, from: int)
    requires c.Valid() && Monotone(h) && NeverForgotten(c, h, k)
    ensures AdmissionsFollow(c, h, k, from, Admissions(c, h, k, from))
  {
    if h != [] {
      var init, call := h[..|h| - 1], h[|h| - 1];
      AdmissionsByWindow(c, init, k, from);
      CountsAreBounded(c, init, k);
      KeptIffCalled(c, init, k);
      BoundedAnswer(c, init, call);
    }
  }

  /** At most `2 * limit - 1` calls of a key are admitted in any interval of one window length. */
  lemma WindowBound(c: Config, h: seq<Call>, k: Key, from: int)
    requires c.Valid() && Monotone(h) && NeverForgotten(c, h, k)
    ensures Admissions(c, h, k, from) <= 2 * c.limit - 1
  {
    AdmissionsByWindow(c, h, k, from);
    CountsAreBounded(c, h, k);
  }

  /** A run of calls of `k` alone whose current window is `w`. */
  ghost predicate Solo(c: Config, h: seq<Call>, k: Key, w: Entry) {
    && h != [] && h[|h| - 1].key == k && Monotone(h) && NeverForgotten(c, h, k)
    && Lookup(Run(c, h), k) == Some(w)
  }

  lemma SoloStep(c: Config, h: seq<Call>, k: Key, w: Entry, now: int, from: int)
    requires c.Valid() && Solo(c, h, k, w) && h[|h| - 1].now <= now
    ensures Solo(c, h + [Call(k, now)], k, IdealEntry(c, Some(w), now))
    ensures Admissions(c, h + [Call(k, now)], k, from) == Admissions(c, h, k, from)
          + if from <= now < from + c.windowMs && IdealAnswer(c, Some(w), now).Allowed? then 1 else 0
  {
    var call := Call(k, now);
    assert (h + [call])[..|h|] == h;
    RunIsDistinct(c, h);
    LookupAfter(c, Run(c, h), call, k);
    assert Since(h, k) == {};
  }

  lemma {:induction false} Fill(c: Config, h: seq<Call>, k: Key, w: Entry, now: int, from: int, n: nat)
    returns (filled: seq<Call>)
    requires c.Valid() && Solo(c, h, k, w) && h[|h| - 1].now <= now && w.count + n <= c.limit
    requires w.windowStartedAt <= now < w.windowStartedAt + c.windowMs && from <= now < from + c.windowMs
    ensures Solo(c, filled, k, Entry(w.count + n, w.windowStartedAt))
    ensures filled != [] && filled[|filled| - 1].now <= now
    ensures Admissions(c, filled, k, from) == Admissions(c, h, k, from) + n
    decreases n
  {
    hide Run, Acquired, Admissions, NeverForgotten, Monotone;
    filled := h;
    if n > 0 {
      SoloStep(c, h, k, w, now, from);
      filled := Fill(c, h + [Call(k, now)], k, Entry(w.count + 1, w.windowStartedAt), now, from, n - 1);
    }
  }

  lemma SoloStart(c: Config, k: Key)
    requires c.Valid()
    ensures Solo(c, [Call(k, 0)], k, Entry(1, 0)) && Admissions(c, [Call(k, 0)], k, 1) == 0
  {
    var call := Call(k, 0);
    var h := [call];
    assert h == [] + [call];
    assert h[..0] == [];
    assert Run(c, []) == [];
    LookupAfter(c, [], call, k);
    assert Run(c, h) == Acquired(c, [], call);
    assert NeverForgotten(c, [], k) && !Called([], k);
    assert Admissions(c, [], k, 1) == 0;
  }

  /** The bound is reached for every configuration whose window is longer than a clock tick. */
  lemma WindowBoundIsSharp(c: Config, k: Key) returns (h: seq<Call>)
    requires c.Valid() && c.windowMs >= 2
    ensures Monotone(h) && NeverForgotten(c, h, k)
    ensures Admissions(c, h, k, 1) == 2 * c.limit - 1
  {
    var first := FullFirstWindow(c, k);
    var next := first + [Call(k, c.windowMs)];
    NextWindow(c, first, k);
    var n := c.limit - 1;
    hide Solo, Admissions, Monotone, NeverForgotten;
    h := Fill(c, next, k, Entry(1, c.windowMs), c.windowMs, 1, n);
    SoloFacts(c, h, k, Entry(1 + n, c.windowMs));
  }

  lemma FullFirstWindow(c: Config, k: Key) returns (h: seq<Call>)
    requires c.Valid() && c.windowMs >= 2
    ensures Solo(c, h, k, Entry(c.limit, 0)) && h[|h| - 1].now <= 1
    ensures Admissions(c, h, k, 1) == c.limit - 1
  {
    SoloStart(c, k);
    var n: nat := c.limit - 1;
    hide *;
    h := Fill(c, [Call(k, 0)], k, Entry(1, 0), 1, 1, n);
    assert Entry(1 + n, 0) == Entry(c.limit, 0);
  }

  lemma NextWindow(c: Config, h: seq<Call>, k: Key)
    requires c.Valid() && Solo(c, h, k, Entry(c.limit, 0)) && h[|h| - 1].now <= c.windowMs
    ensures Solo(c, h + [Call(k, c.windowMs)], k, Entry(1, c.windowMs))
    ensures c.windowMs >= 2 ==>
              Admissions(c, h + [Call(k, c.windowMs)], k, 1) == Admissions(c, h, k, 1) + 1
  {
    SoloStep(c, h, k, Entry(c.limit, 0), c.windowMs, 1);
  }

  lemma SoloFacts(c: Config, h: seq<Call>, k: Key, w: Entry)
    requires Solo(c, h, k, w)
    ensures h != [] && Monotone(h) && NeverForgotten(c, h, k)
  {
  }

  // ---------------------------------------------------------------- what Retry-After promises

  /** Calls of other keys leave the window of `k` alone, or make the limiter forget it. */
  lemma {:induction false} OthersKeepWindow(c: Config, h: seq<Call>, others: seq<Call>, k: Key)
    requires c.Valid() && forall i :: 0 <= i < |others| ==> others[i].key != k
    ensures Kept(c, h + others, k) == Kept(c, h, k)
  {
    if others == [] {
      assert h + others == h;
    } else {
      var n := |others| - 1;
      assert (h + others)[..|h| + n] == h + others[..n];
      OthersKeepWindow(c, h, others[..n], k);
    }
  }

  /** A denial names the least number of seconds after which the key's window is over. */
  lemma RetryAfterIsLeast(c: Config, h: seq<Call>, denied: Call)
    requires c.Valid() && AnswerAfter(c, h, denied).Denied?
    ensures Recent(c, h, denied.key) && Kept(c, h, denied.key).Some?
    ensures var w, r := Kept(c, h, denied.key).value, AnswerAfter(c, h, denied).retryAfterSeconds;
            var remaining := w.windowStartedAt + c.windowMs - denied.now;
            && w.count == c.limit && 1 <= remaining <= c.windowMs
            && r >= 1 && 1_000 * (r - 1) < remaining <= 1_000 * r
  {
    BoundedAnswer(c, h, denied);
    KeptIffCalled(c, h, denied.key);
    CountsAreBounded(c, h, denied.key);
  }

  /** A denial names at least 1 second and less than one more than the window length, and the key's
      next call after that long is admitted, whatever other keys did in between. */
  lemma RetryAfterIsHonest(c: Config, h: seq<Call>, denied: Call, others: seq<Call>, again: Call)
    requires c.Valid() && AnswerAfter(c, h, denied).Denied?
    requires again.key == denied.key && forall i :: 0 <= i < |others| ==> others[i].key != denied.key
    requires again.now >= denied.now + 1_000 * AnswerAfter(c, h, denied).retryAfterSeconds
    ensures 1 <= AnswerAfter(c, h, denied).retryAfterSeconds
    ensures 1_000 * (AnswerAfter(c, h, denied).retryAfterSeconds - 1) < c.windowMs
    ensures AnswerAfter(c, h + [denied] + others, again) == Allowed
  {
    var k := denied.key;
    RetryAfterIsLeast(c, h, denied);
    BoundedAnswer(c, h, denied);
    BoundedAnswer(c, h + [denied] + others, again);
    OthersKeepWindow(c, h + [denied], others, k);
    assert (h + [denied])[..|h|] == h;
    hide AnswerAfter, CeilDiv;
    var w := Kept(c, h, k);
    assert Kept(c, h + [denied], k) == w;
  }

  // ---------------------------------------------------------------- the window, as calls of the run

  /** The calls of `k` in a run. */
  function CallsOf(h: seq<Call>, k: Key): nat {
    if h == [] then 0 else CallsOf(h[..|h| - 1], k) + if h[|h| - 1].key == k then 1 else 0
  }

  /** The window `w` opened at call `i`, of `k`: that call found no window or one that was over, every
      later call of `k` fell into it, and it has counted its `calls` calls up to the limit. */
  ghost predicate Opened(c: Config, h: seq<Call>, k: Key, w: Entry, i: nat, found: Option<Entry>, calls: int) {
    && i < |h| && h[i].key == k && h[i].now == w.windowStartedAt
    && (forall j :: i < j < |h| && h[j].key == k ==> 0 <= h[j].now - w.windowStartedAt < c.windowMs)
    && (found.Some? ==> !(0 <= w.windowStartedAt - found.value.windowStartedAt < c.windowMs))
    && w.count == (if calls < c.limit then calls else c.limit)
  }

  ghost predicate OpenedAt(c: Config, h: seq<Call>, k: Key, w: Entry, i: nat) {
    i < |h| && Opened(c, h, k, w, i, Ideal(c, h[..i], k), CallsOf(h, k) - CallsOf(h[..i], k))
  }

  /** The window of the ideal limiter, for every run, in terms of the calls themselves. */
  lemma {:induction false} IdealWindow(c: Config, h: seq<Call>, k: Key)
    requires c.Valid()
    ensures Ideal(c, h, k).Some? <==> exists j :: 0 <= j < |h| && h[j].key == k
    ensures Ideal(c, h, k).Some? ==> exists i: nat :: OpenedAt(c, h, k, Ideal(c, h, k).value, i)
  {
    if h != [] {
      var init, call := h[..|h| - 1], h[|h| - 1];
      IdealWindow(c, init, k);
      if call.key == k && Fresh(c, Ideal(c, init, k), call.now) {
        OpensHere(c, h, k);
      } else if Ideal(c, init, k).Some? {
        var i: nat :| OpenedAt(c, init, k, Ideal(c, init, k).value, i);
        StaysOpened(c, h, k, i);
      }
      hide OpenedAt, IdealEntry;
      assert call.key == k ==> h[|h| - 1].key == k;
      assert forall j :: 0 <= j < |init| ==> init[j] == h[j];
    }
  }

  lemma OpensHere(c: Config, h: seq<Call>, k: Key)
    requires c.Valid() && h != [] && h[|h| - 1].key == k
    requires Fresh(c, Ideal(c, h[..|h| - 1], k), h[|h| - 1].now)
    ensures OpenedAt(c, h, k, Ideal(c, h, k).value, |h| - 1)
  {
  }

  lemma StaysOpened(c: Config, h: seq<Call>, k: Key, i: nat)
    requires c.Valid() && h != [] && Ideal(c, h[..|h| - 1], k).Some?
    requires OpenedAt(c, h[..|h| - 1], k, Ideal(c, h[..|h| - 1], k).value, i)
    requires h[|h| - 1].key == k ==> !Fresh(c, Ideal(c, h[..|h| - 1], k), h[|h| - 1].now)
    ensures OpenedAt(c, h, k, Ideal(c, h, k).value, i)
  {
    var init, call := h[..|h| - 1], h[|h| - 1];
    LastCall(c, h, k);
    CallsGrow(init, k, i);
    hide Ideal, CallsOf;
    assert init[..i] == h[..i];
    var w, w' := Ideal(c, init, k).value, Ideal(c, h, k).value;
    var found, calls := Ideal(c, h[..i], k), CallsOf(init, k) - CallsOf(h[..i], k);
    assert Opened(c, init, k, w, i, found, calls);
    OneMoreInWindow(c, h, k, w, i, found, calls);
    assert OpenedAt(c, h, k, w', i);
  }

  lemma LastCall(c: Config, h: seq<Call>, k: Key)
    requires h != []
    ensures var init, call := h[..|h| - 1], h[|h| - 1];
            && CallsOf(h, k) == CallsOf(init, k) + (if call.key == k then 1 else 0)
            && Ideal(c, h, k) == if call.key == k then Some(IdealEntry(c, Ideal(c, init, k), call.now))
                                 else Ideal(c, init, k)
  {
  }

  lemma OneMoreInWindow(c: Config, h: seq<Call>, k: Key, w: Entry, i: nat, found: Option<Entry>, calls: int)
    requires c.Valid() && h != [] && calls >= 1 && Opened(c, h[..|h| - 1], k, w, i, found, calls)
    requires h[|h| - 1].key == k ==> !Fresh(c, Some(w), h[|h| - 1].now)
    ensures h[|h| - 1].key == k ==> Opened(c, h, k, IdealEntry(c, Some(w), h[|h| - 1].now), i, found, calls + 1)
    ensures h[|h| - 1].key != k ==> Opened(c, h, k, w, i, found, calls)
  {
    var init := h[..|h| - 1];
    assert forall j :: 0 <= j < |init| ==> init[j] == h[j];
  }

  lemma {:induction false} CallsGrow(h: seq<Call>, k: Key, i: nat)
    requires i < |h| && h[i].key == k
    ensures CallsOf(h[..i], k) < CallsOf(h, k)
  {
    var init := h[..|h| - 1];
    if i < |h| - 1 {
      CallsGrow(init, k, i);
      assert init[..i] == h[..i];
    }
  }

  /** The ideal limiter admits a call exactly when it falls outside the key's window, or the window
      has seen fewer than `limit` calls. */
  lemma IdealAdmits(c: Config, h: seq<Call>, call: Call, i: nat)
    requires c.Valid() && Ideal(c, h, call.key).Some? && OpenedAt(c, h, call.key, Ideal(c, h, call.key).value, i)
    ensures IdealAnswer(c, Ideal(c, h, call.key), call.now) == Allowed <==>
              !(0 <= call.now - h[i].now < c.windowMs) || CallsOf(h, call.key) - CallsOf(h[..i], call.key) < c.limit
  {
    CallsGrow(h, call.key, i);
  }
}
