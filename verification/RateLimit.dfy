/** The token-bucket limiter, over real arithmetic and a clock in nanoseconds. */
module RateLimit {
  import opened Wrappers
  import opened Encoding
  import opened Limits

  const DEFAULT_MAX_KEYS := 8192

  datatype LimiterError = BadRate | BadBurst | BadMaxKeys

  datatype Bucket = Bucket(tokens: real, seen: int)

  type Buckets = map<Text, Bucket>

  // idle is in nanoseconds: the whole seconds a drained bucket takes to fill.
  datatype Settings = Settings(perSecond: real, burst: real, maxKeys: int, idle: int) {
    predicate Valid() {
      && perSecond > 0.0 && burst >= 1.0 && maxKeys >= 1
      && idle == (burst / perSecond).Floor * SECOND
    }

    predicate WholeSeconds() requires Valid() { ((burst / perSecond).Floor as real) * perSecond == burst }
  }

  // ---- one bucket ----

  // The tokens that so many nanoseconds bring.
  function Gain(s: Settings, elapsed: int): real { elapsed as real / SECOND as real * s.perSecond }

  function Min(a: real, b: real): real { if a <= b then a else b }

  function Refilled(s: Settings, b: Bucket, now: int): Bucket {
    if now - b.seen > 0 then Bucket(Min(s.burst, b.tokens + Gain(s, now - b.seen)), now) else b
  }

  // The tokens of a key at an instant; a key without a bucket would start full.
  function Level(s: Settings, bs: Buckets, key: Text, now: int): real {
    if key in bs then Refilled(s, bs[key], now).tokens else s.burst
  }

  predicate Sound(s: Settings, bs: Buckets, now: int) {
    forall k :: k in bs ==> 0.0 <= bs[k].tokens <= s.burst && bs[k].seen <= now
  }

  lemma GainMonotone(s: Settings, a: int, b: int)
    requires s.Valid() && a <= b
    ensures Gain(s, a) <= Gain(s, b)
  {
    var x, y := a as real / SECOND as real, b as real / SECOND as real;
    Scaled(s.perSecond, x, y);
  }

  lemma Scaled(rate: real, x: real, y: real)
    requires rate > 0.0 && x <= y
    ensures x * rate <= y * rate
  {
    assert (y - x) * rate >= 0.0;
  }

  lemma GainAdds(s: Settings, a: int, b: int)
    ensures Gain(s, a + b) == Gain(s, a) + Gain(s, b)
  {}

  // A bucket filled in two stages is filled as if in one.
  lemma LevelLater(s: Settings, bs: Buckets, key: Text, t: int, now: int)
    requires s.Valid() && Sound(s, bs, t) && t <= now
    ensures Level(s, bs, key, now) == Min(s.burst, Level(s, bs, key, t) + Gain(s, now - t))
    ensures 0.0 <= Level(s, bs, key, t) <= s.burst
  {
    hide Gain;
    GainMonotone(s, 0, now - t);
    NoGain(s);
    if key in bs {
      var b := bs[key];
      GainAdds(s, t - b.seen, now - t);
      GainMonotone(s, 0, t - b.seen);
      assert t - b.seen + (now - t) == now - b.seen;
    }
  }

  lemma NoGain(s: Settings)
    ensures Gain(s, 0) == 0.0
  {}

  // ---- making room ----

  predicate Idle(s: Settings, b: Bucket, now: int) { now - b.seen >= s.idle }

  function Fresh(s: Settings, bs: Buckets, now: int): Buckets {
    map k | k in bs && !Idle(s, bs[k], now) :: bs[k]
  }

  // A full table loses its idle buckets, and then no more of the others, whichever
  // they are, than it must.
  predicate RoomMade(s: Settings, bs: Buckets, room: Buckets, now: int) {
    if |bs| < s.maxKeys then room == bs
    else
      && Within(room, Fresh(s, bs, now))
      && (if |Fresh(s, bs, now)| < s.maxKeys then room == Fresh(s, bs, now) else |room| == s.maxKeys - 1)
  }

  predicate Within(part: Buckets, whole: Buckets) { forall k :: k in part ==> k in whole && part[k] == whole[k] }

  // The bucket of a key, filled to the instant, with its token taken if it has one.
  function Asked(s: Settings, room: Buckets, key: Text, now: int): (Buckets, bool) {
    var current := Refilled(s, if key in room then room[key] else Bucket(s.burst, now), now);
    if current.tokens < 1.0 then (room[key := current], false)
    else (room[key := current.(tokens := current.tokens - 1.0)], true)
  }

  class Limiter {
    const settings: Settings
    var buckets: Buckets

    constructor (settings: Settings)
      ensures this.settings == settings && buckets == map[]
    {
      this.settings := settings;
      buckets := map[];
    }

    static method New(perMinute: real, burst: int, maxKeys: int) returns (r: Result<Limiter, LimiterError>)
      ensures r.Failure? <==> perMinute <= 0.0 || burst < 1 || maxKeys < 0
      ensures r.Failure? ==> r.error == if perMinute <= 0.0 then BadRate else if burst < 1 then BadBurst else BadMaxKeys
      ensures (r.Success? ==>
          fresh(r.value) && r.value.settings.Valid() && r.value.buckets == map[]
          && r.value.settings.perSecond == perMinute / 60.0 && r.value.settings.burst == burst as real
          && r.value.settings.maxKeys == if maxKeys == 0 then DEFAULT_MAX_KEYS else maxKeys)
    {
      if perMinute <= 0.0 {
        return Failure(BadRate);
      } else if burst < 1 {
        return Failure(BadBurst);
      } else if maxKeys < 0 {
        return Failure(BadMaxKeys);
      }
      var perSecond := perMinute / 60.0;
      var idle := (burst as real / perSecond).Floor * SECOND;
      var keys := if maxKeys == 0 then DEFAULT_MAX_KEYS else maxKeys;
      var limiter := new Limiter(Settings(perSecond, burst as real, keys, idle));
      return Success(limiter);
    }

    method MakeRoom(now: int)
      requires settings.Valid()
      modifies this
      ensures RoomMade(settings, old(buckets), buckets, now)
      ensures |old(buckets)| < settings.maxKeys ==> buckets == old(buckets)
      ensures |buckets| < settings.maxKeys
      ensures forall k :: k in buckets ==> k in old(buckets) && buckets[k] == old(buckets)[k]
      // A table that was full keeps nothing idle, and loses another only for the last free place.
      ensures (|old(buckets)| >= settings.maxKeys ==>
        && (forall k :: k in buckets ==> now - buckets[k].seen < settings.idle)
        && (|buckets| < settings.maxKeys - 1 ==>
             forall k :: k in old(buckets) && now - old(buckets)[k].seen < settings.idle ==> k in buckets))
    {
      if |buckets| < settings.maxKeys {
        return;
      }

      ghost var before := buckets;
      var unseen := buckets.Keys;
      while unseen != {}
        invariant Within(buckets, before) && unseen <= buckets.Keys
        invariant forall k :: k in before && k !in buckets ==> Idle(settings, before[k], now)
        invariant forall k :: k in buckets && k !in unseen ==> !Idle(settings, buckets[k], now)
        decreases unseen
      {
        var key :| key in unseen;
        if now - buckets[key].seen >= settings.idle {
          buckets := buckets - {key};
        }
        unseen := unseen - {key};
      }
      ghost var kept := Fresh(settings, before, now);
      assert buckets == kept;

      unseen := buckets.Keys;
      while unseen != {} && |buckets| >= settings.maxKeys
        invariant unseen <= buckets.Keys && Within(buckets, kept)
        invariant |buckets| < settings.maxKeys ==> buckets == kept || |buckets| == settings.maxKeys - 1
        invariant |buckets| >= settings.maxKeys ==> unseen == buckets.Keys
        invariant |kept| < settings.maxKeys ==> buckets == kept
        decreases unseen
      {
        var key :| key in unseen;
        Removed(buckets, key);
        buckets := buckets - {key};
        unseen := unseen - {key};
      }
    }

    method Allow(key: Text, now: int) returns (ok: bool, ghost room: Buckets)
      requires settings.Valid()
      modifies this
      ensures Steps(settings, old(buckets), Call(key, now, room))
      ensures (buckets, ok) == Asked(settings, room, key, now)
      // A key without a bucket starts full; a clock that stands still or goes back brings nothing.
      ensures key !in old(buckets) ==> ok && buckets == room[key := Bucket(settings.burst - 1.0, now)]
      ensures (key in old(buckets) ==>
        var b := old(buckets)[key];
        var elapsed := (now - b.seen) as real / 1_000_000_000.0;
        var filled := if now <= b.seen then b.tokens else Min(settings.burst, b.tokens + elapsed * settings.perSecond);
        && (ok <==> filled >= 1.0)
        && key in buckets && buckets == old(buckets)[key := buckets[key]]
        && buckets[key] == Bucket(if ok then filled - 1.0 else filled, if now > b.seen then now else b.seen))
    {
      hide Gain, Refilled;
      RefilledExactly(settings, if key in buckets then buckets[key] else Bucket(settings.burst, now), now);
      if key !in buckets {
        MakeRoom(now);
        room := buckets;
        buckets := buckets[key := Bucket(settings.burst, now)];
      } else {
        room := buckets;
      }
      var current := Refilled(settings, buckets[key], now);
      buckets := buckets[key := current];
      assert buckets == room[key := current];
      if current.tokens < 1.0 {
        return false, room;
      }
      var spent := current.(tokens := current.tokens - 1.0);
      assert buckets[key := spent] == room[key := spent];
      buckets := buckets[key := spent];
      return true, room;
    }
  }

  lemma RefilledExactly(s: Settings, b: Bucket, now: int)
    ensures var elapsed := (now - b.seen) as real / 1_000_000_000.0;
      Refilled(s, b, now) ==
        if now <= b.seen then b else Bucket(Min(s.burst, b.tokens + elapsed * s.perSecond), now)
  {}

  lemma Removed(bs: Buckets, key: Text)
    requires key in bs
    ensures |bs - {key}| == |bs| - 1 && (bs - {key}).Keys == bs.Keys - {key}
  {
    assert (bs - {key})[key := bs[key]] == bs;
  }

  // ---- runs ----

  // One call, with the table that making room for it left.
  datatype Call = Call(key: Text, now: int, room: Buckets)

  predicate Steps(s: Settings, bs: Buckets, c: Call) {
    if c.key in bs then c.room == bs else RoomMade(s, bs, c.room, c.now)
  }

  // A run on a clock that does not go back.
  predicate Runs(s: Settings, bs: Buckets, t: int, calls: seq<Call>)
    decreases |calls|
  {
    calls == [] || (
      && t <= calls[0].now && Steps(s, bs, calls[0])
      && Runs(s, Asked(s, calls[0].room, calls[0].key, calls[0].now).0, calls[0].now, calls[1..]))
  }

  function End(s: Settings, bs: Buckets, calls: seq<Call>): Buckets
    decreases |calls|
  {
    if calls == [] then bs else End(s, Asked(s, calls[0].room, calls[0].key, calls[0].now).0, calls[1..])
  }

  function LastTime(t: int, calls: seq<Call>): int { if calls == [] then t else calls[|calls| - 1].now }

  function Answers(s: Settings, calls: seq<Call>): (answers: seq<bool>)
    ensures |answers| == |calls|
  {
    seq(|calls|, i requires 0 <= i < |calls| => Asked(s, calls[i].room, calls[i].key, calls[i].now).1)
  }

  function Granted(s: Settings, calls: seq<Call>, key: Text): nat
    decreases |calls|
  {
    if calls == [] then 0
    else
      (if calls[0].key == key && Asked(s, calls[0].room, key, calls[0].now).1 then 1 else 0) + Granted(s, calls[1..], key)
  }

  // How often the bucket of a key was dropped to make room.
  function Evictions(s: Settings, bs: Buckets, calls: seq<Call>, key: Text): nat
    decreases |calls|
  {
    if calls == [] then 0
    else
      (if key in bs && key !in calls[0].room then 1 else 0)
      + Evictions(s, Asked(s, calls[0].room, calls[0].key, calls[0].now).0, calls[1..], key)
  }

  // ---- the table stays within its limit ----

  lemma RoomIsWithin(s: Settings, bs: Buckets, c: Call)
    requires Steps(s, bs, c)
    ensures Within(c.room, bs)
  {
    assert Within(bs, bs);
  }

  lemma {:induction false} TableBounded(s: Settings, bs: Buckets, t: int, calls: seq<Call>)
    requires s.Valid() && Runs(s, bs, t, calls) && |bs| <= s.maxKeys
    ensures |End(s, bs, calls)| <= s.maxKeys
    decreases |calls|
  {
    hide Refilled, Fresh, Within;
    if calls != [] {
      var c := calls[0];
      var next := Asked(s, c.room, c.key, c.now).0;
      Added(c.room, c.key, next[c.key]);
      assert next == c.room[c.key := next[c.key]];
      TableBounded(s, next, c.now, calls[1..]);
    }
  }

  lemma Added(bs: Buckets, key: Text, b: Bucket)
    ensures |bs[key := b]| == |bs| + if key in bs then 0 else 1
  {
    assert bs[key := b].Keys == bs.Keys + {key};
  }

  // ---- how much a key can be granted ----

  lemma AskedSound(s: Settings, bs: Buckets, t: int, c: Call)
    requires s.Valid() && Sound(s, bs, t) && t <= c.now && Steps(s, bs, c)
    ensures Sound(s, c.room, c.now) && Sound(s, Asked(s, c.room, c.key, c.now).0, c.now)
  {
    hide Gain, RoomMade;
    RoomIsWithin(s, bs, c);
    LevelLater(s, c.room, c.key, c.now, c.now);
    if c.key in c.room {
      GainMonotone(s, 0, c.now - c.room[c.key].seen);
      NoGain(s);
    }
  }

  // A call moves only the key it is for, and that by the token it takes.
  lemma AskedLevel(s: Settings, room: Buckets, c: Call, key: Text)
    requires s.Valid() && Sound(s, room, c.now)
    ensures var (next, ok) := Asked(s, room, c.key, c.now);
      && ok == (Level(s, room, c.key, c.now) >= 1.0)
      && Level(s, next, key, c.now) == Level(s, room, key, c.now) - if key == c.key && ok then 1.0 else 0.0
  {
    hide Gain;
  }

  // In any run, a key is granted at most the burst, once more for every time its
  // bucket was dropped, and what the rate brings in the time that passes.
  lemma {:induction false} GrantedAtMost(s: Settings, bs: Buckets, t: int, calls: seq<Call>, key: Text)
    requires s.Valid() && Sound(s, bs, t) && Runs(s, bs, t, calls)
    ensures Granted(s, calls, key) as real
      <= s.burst * (1 + Evictions(s, bs, calls, key)) as real + Gain(s, LastTime(t, calls) - t)
  {
    hide Gain, Level, Sound, Asked, Runs, Granted, Evictions, Settings.Valid;
    GrantedPotential(s, bs, t, calls, key);
    LevelLater(s, bs, key, t, t);
    Distributes(s.burst, 1, Evictions(s, bs, calls, key));
  }

  // The tokens of so many full buckets.
  function Fills(s: Settings, n: int): real { s.burst * n as real }

  lemma {:induction false} GrantedPotential(s: Settings, bs: Buckets, t: int, calls: seq<Call>, key: Text)
    requires s.Valid() && Sound(s, bs, t) && Runs(s, bs, t, calls)
    ensures Granted(s, calls, key) as real
      <= Level(s, bs, key, t) + Fills(s, Evictions(s, bs, calls, key)) + Gain(s, LastTime(t, calls) - t)
    decreases |calls|
  {
    hide Gain, Level, Sound, Asked, Steps, Fills;
    if calls == [] {
      FillsAdd(s, 0, 0);
      NoGain(s);
      LevelLater(s, bs, key, t, t);
    } else {
      var c := calls[0];
      var next := Asked(s, c.room, c.key, c.now).0;
      AskedSound(s, bs, t, c);
      GrantedPotential(s, next, c.now, calls[1..], key);
      LevelLater(s, bs, key, t, c.now);
      RoomLevel(s, bs, c, key, t);
      AskedLevel(s, c.room, c, key);
      var later := LastTime(t, calls);
      assert later == LastTime(c.now, calls[1..]);
      GainAdds(s, c.now - t, later - c.now);
      assert c.now - t + (later - c.now) == later - t;
      FillsAdd(s, if key in bs && key !in c.room then 1 else 0, Evictions(s, next, calls[1..], key));
    }
  }

  lemma FillsAdd(s: Settings, m: int, n: int)
    ensures Fills(s, m + n) == Fills(s, m) + Fills(s, n)
  {
    Distributes(s.burst, m, n);
  }

  lemma Distributes(x: real, m: int, n: int)
    ensures x * (m + n) as real == x * m as real + x * n as real
  {}

  // Making room leaves a key's level alone, or fills it up if its bucket is dropped.
  lemma RoomLevel(s: Settings, bs: Buckets, c: Call, key: Text, t: int)
    requires s.Valid() && Sound(s, bs, t) && t <= c.now && Steps(s, bs, c)
    ensures Level(s, c.room, key, c.now)
      <= Level(s, bs, key, c.now) + Fills(s, if key in bs && key !in c.room then 1 else 0)
    ensures !(key in bs && key !in c.room) ==> Level(s, c.room, key, c.now) == Level(s, bs, key, c.now)
  {
    hide Gain, RoomMade;
    RoomIsWithin(s, bs, c);
    LevelLater(s, bs, key, t, c.now);
    GainMonotone(s, 0, c.now - t);
    NoGain(s);
  }

  // ---- dropping idle buckets ----

  // An idle bucket is less than one second's refill from full.
  lemma IdleNearlyFull(s: Settings, b: Bucket, now: int)
    requires s.Valid() && 0.0 <= b.tokens <= s.burst && b.seen <= now && Idle(s, b, now)
    ensures s.burst - Refilled(s, b, now).tokens < s.perSecond
    ensures s.WholeSeconds() ==> Refilled(s, b, now).tokens == s.burst
  {
    var seconds := (s.burst / s.perSecond).Floor;
    GainMonotone(s, s.idle, now - b.seen);
    WholeGain(s, seconds);
    assert s.burst / s.perSecond < seconds as real + 1.0;
    Scaled(s.perSecond, s.burst / s.perSecond, seconds as real + 1.0);
    assert s.burst / s.perSecond * s.perSecond == s.burst;
    FloorBelow(s, seconds);
  }

  lemma WholeGain(s: Settings, seconds: int)
    ensures Gain(s, seconds * SECOND) == seconds as real * s.perSecond
  {
    assert (seconds * SECOND) as real == seconds as real * SECOND as real;
    assert (seconds * SECOND) as real / SECOND as real == seconds as real;
  }

  lemma FloorBelow(s: Settings, seconds: int)
    requires s.Valid() && seconds == (s.burst / s.perSecond).Floor
    ensures s.burst - seconds as real * s.perSecond < s.perSecond
    ensures seconds as real * s.perSecond <= s.burst && seconds >= 0
  {
    var q := s.burst / s.perSecond;
    assert q * s.perSecond == s.burst;
    Product(seconds as real + 1.0 - q, s.perSecond);
    assert (seconds as real + 1.0 - q) * s.perSecond == seconds as real * s.perSecond + s.perSecond - q * s.perSecond;
    Scaled(s.perSecond, seconds as real, q);
  }

  lemma Product(x: real, y: real)
    requires x > 0.0 && y > 0.0
    ensures x * y > 0.0
  {}

  // Every idle bucket is full exactly when the time to fill is whole seconds.
  lemma IdleFullExactly(s: Settings)
    requires s.Valid()
    ensures s.WholeSeconds() <==> forall b: Bucket, now: int ::
      0.0 <= b.tokens <= s.burst && b.seen <= now && Idle(s, b, now) ==> Refilled(s, b, now).tokens == s.burst
  {
    hide Gain;
    if s.WholeSeconds() {
      forall b: Bucket, now: int | 0.0 <= b.tokens <= s.burst && b.seen <= now && Idle(s, b, now)
        ensures Refilled(s, b, now).tokens == s.burst
      {
        IdleNearlyFull(s, b, now);
      }
    } else {
      var seconds := (s.burst / s.perSecond).Floor;
      FloorBelow(s, seconds);
      WholeGain(s, seconds);
      var b := Bucket(0.0, 0);
      assert Idle(s, b, s.idle) && Refilled(s, b, s.idle).tokens < s.burst;
    }
  }

  // ---- a limiter that never forgets ----

  // The calls made to a table with room for every key.
  function Unbounded(s: Settings, bs: Buckets, calls: seq<Call>): seq<Call>
    decreases |calls|
  {
    if calls == [] then []
    else
      var c := calls[0].(room := bs);
      [c] + Unbounded(s, Asked(s, bs, c.key, c.now).0, calls[1..])
  }

  // No bucket is dropped before it is idle.
  predicate OnlyIdleDropped(s: Settings, bs: Buckets, calls: seq<Call>)
    decreases |calls|
  {
    calls == [] || (
      && (forall k :: k in bs && k !in calls[0].room ==> Idle(s, bs[k], calls[0].now))
      && OnlyIdleDropped(s, Asked(s, calls[0].room, calls[0].key, calls[0].now).0, calls[1..]))
  }

  ghost predicate SameLevels(s: Settings, bs: Buckets, all: Buckets, t: int) {
    forall k :: Level(s, bs, k, t) == Level(s, all, k, t)
  }

  lemma SameLater(s: Settings, bs: Buckets, all: Buckets, t: int, now: int)
    requires s.Valid() && Sound(s, bs, t) && Sound(s, all, t) && SameLevels(s, bs, all, t) && t <= now
    ensures SameLevels(s, bs, all, now)
  {
    hide Level, Gain, Sound;
    forall k ensures Level(s, bs, k, now) == Level(s, all, k, now) {
      LevelLater(s, bs, k, t, now);
      LevelLater(s, all, k, t, now);
    }
  }

  lemma SameAfterRoom(s: Settings, bs: Buckets, all: Buckets, t: int, c: Call)
    requires s.Valid() && s.WholeSeconds() && Sound(s, bs, t) && t <= c.now && Steps(s, bs, c)
    requires SameLevels(s, bs, all, c.now) && forall k :: k in bs && k !in c.room ==> Idle(s, bs[k], c.now)
    ensures SameLevels(s, c.room, all, c.now)
  {
    hide Gain, RoomMade, Idle;
    RoomIsWithin(s, bs, c);
    forall k ensures Level(s, c.room, k, c.now) == Level(s, all, k, c.now) {
      assert Level(s, bs, k, c.now) == Level(s, all, k, c.now);
      if k in bs && k !in c.room {
        IdleNearlyFull(s, bs[k], c.now);
      }
    }
  }

  lemma SameAfterAsking(s: Settings, room: Buckets, all: Buckets, c: Call)
    requires s.Valid() && Sound(s, room, c.now) && Sound(s, all, c.now) && SameLevels(s, room, all, c.now)
    ensures Asked(s, room, c.key, c.now).1 == Asked(s, all, c.key, c.now).1
    ensures SameLevels(s, Asked(s, room, c.key, c.now).0, Asked(s, all, c.key, c.now).0, c.now)
  {
    hide Level, Gain, Asked, Sound;
    AskedLevel(s, room, c, c.key);
    AskedLevel(s, all, c, c.key);
    forall k ensures Level(s, Asked(s, room, c.key, c.now).0, k, c.now) == Level(s, Asked(s, all, c.key, c.now).0, k, c.now) {
      AskedLevel(s, room, c, k);
      AskedLevel(s, all, c, k);
    }
  }

  // While only idle buckets are dropped, and these fill in whole seconds, every
  // answer is the one a limiter that forgets nothing would have given.
  lemma {:induction false} ForgettingUnseen(s: Settings, bs: Buckets, all: Buckets, t: int, calls: seq<Call>)
    requires s.Valid() && s.WholeSeconds() && Sound(s, bs, t) && Sound(s, all, t) && SameLevels(s, bs, all, t)
    requires Runs(s, bs, t, calls) && OnlyIdleDropped(s, bs, calls)
    ensures Answers(s, calls) == Answers(s, Unbounded(s, all, calls))
    decreases |calls|
  {
    hide Level, Gain, Asked, Sound, Steps, SameLevels, Idle;
    if calls != [] {
      var c := calls[0];
      SameLater(s, bs, all, t, c.now);
      SameAfterRoom(s, bs, all, t, c);
      AskedSound(s, bs, t, c);
      SoundLater(s, all, t, c.now);
      SameAfterAsking(s, c.room, all, c);
      AskedOfAll(s, all, c);
      var next, nextAll := Asked(s, c.room, c.key, c.now).0, Asked(s, all, c.key, c.now).0;
      ForgettingUnseen(s, next, nextAll, c.now, calls[1..]);
      AnswersFirst(s, calls);
      AnswersFirst(s, Unbounded(s, all, calls));
      assert Unbounded(s, all, calls)[1..] == Unbounded(s, nextAll, calls[1..]);
    }
  }

  lemma SoundLater(s: Settings, bs: Buckets, t: int, now: int)
    requires Sound(s, bs, t) && t <= now
    ensures Sound(s, bs, now)
  {}

  lemma AskedOfAll(s: Settings, all: Buckets, c: Call)
    requires s.Valid() && Sound(s, all, c.now)
    ensures Sound(s, Asked(s, all, c.key, c.now).0, c.now)
  {
    hide Gain;
    GainMonotone(s, 0, if c.key in all then c.now - all[c.key].seen else 0);
    NoGain(s);
  }

  lemma AnswersFirst(s: Settings, calls: seq<Call>)
    requires calls != []
    ensures Answers(s, calls) == [Asked(s, calls[0].room, calls[0].key, calls[0].now).1] + Answers(s, calls[1..])
  {
    hide Asked;
  }
}
