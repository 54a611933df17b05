/**
  The presence tracker: a map of bounded capacity from a peer's 32-bit
  identity key to the last presence message heard from it, with a fixed
  60-second horizon for flushing stale entries.
 */
module Tracker {
  import opened Primitives
  import opened Wrappers

  /** One peer's last-known state, keyed by `address`. */
  datatype PresenceMessage = PresenceMessage(
    address: U32,
    rssi: I8,
    txPower: I8,
    lastSeen: Instant,
    name: string,
    colour: RGB8)

  /** The render-ready view of one peer that animations capture. */
  datatype SoulSummary = SoulSummary(colour: RGB8, txLoss: int)

  type VisibleSouls = seq<SoulSummary>

  /** `Duration::from_secs(60)`, the age beyond which `flush` drops an entry. */
  const FLUSH_AGE: Duration := 60_000

  type Souls = map<U32, PresenceMessage>

  /** The three results of the map's `insert`: `Ok(Some(_))`, `Ok(None)` and `Err(_)`. */
  datatype InsertOutcome = Existing | New | Full

  datatype InsertResult = InsertResult(outcome: InsertOutcome, souls: Souls)

  /** Every entry is stored under its own message's address. */
  ghost predicate KeyedByAddress(souls: Souls) {
    forall k :: k in souls ==> souls[k].address == k
  }

  predicate IsPowerOfTwo(n: nat) {
    n == 1 || (n >= 2 && n % 2 == 0 && IsPowerOfTwo(n / 2))
  }

  /**
    The bounded map's `insert` of `presence` under its address: an entry
    already present is replaced whether or not the map is full; an absent key
    is added while there is room; otherwise the map is left as it was. Only the
    entry under `presence.address` can change, and the size never exceeds the
    capacity.
   */
  function Insert(souls: Souls, capacity: nat, presence: PresenceMessage): (r: InsertResult)
    ensures r.outcome == Existing <==> presence.address in souls
    ensures r.outcome == New <==> presence.address !in souls && |souls| < capacity
    ensures r.outcome == Full ==> r.souls == souls
    ensures r.outcome != Full ==> presence.address in r.souls && r.souls[presence.address] == presence
    ensures forall k :: k != presence.address ==> (k in r.souls <==> k in souls)
    ensures forall k :: k != presence.address && k in souls ==> r.souls[k] == souls[k]
    ensures |r.souls| == if r.outcome == New then |souls| + 1 else |souls|
    ensures |souls| <= capacity ==> |r.souls| <= capacity
    ensures KeyedByAddress(souls) ==> KeyedByAddress(r.souls)
  {
    var key := presence.address;
    if key in souls then
      InsertResult(Existing, souls[key := presence])
    else if |souls| < capacity then
      InsertResult(New, souls[key := presence])
    else
      InsertResult(Full, souls)
  }

  /**
    `retain` with the predicate of `flush`: keep exactly the entries seen less
    than 60 seconds before `now`, unchanged, and drop all others. The horizon
    `now - 60 s` is computed without a lower bound, so before 60 seconds of
    uptime every entry stays.
   */
  function Retain(souls: Souls, now: Instant): (r: Souls)
    ensures forall k :: k in r <==> k in souls && now < souls[k].lastSeen + FLUSH_AGE
    ensures forall k :: k in r ==> r[k] == souls[k]
    ensures |r| <= |souls|
    ensures KeyedByAddress(souls) ==> KeyedByAddress(r)
  {
    var r := map k | k in souls && souls[k].lastSeen > now - FLUSH_AGE :: souls[k];
    assert r.Keys <= souls.Keys;
    SubsetCard(r.Keys, souls.Keys);
    r
  }

  lemma SubsetCard<T>(a: set<T>, b: set<T>)
    requires a <= b
    ensures |a| <= |b|
  {
    assert b == a + (b - a);
  }

  /** Flushing twice at the same instant removes nothing more. */
  lemma RetainIdempotent(souls: Souls, now: Instant)
    ensures Retain(Retain(souls, now), now) == Retain(souls, now)
  {
  }

  /** A later flush drops at least what an earlier one drops. */
  lemma RetainLater(souls: Souls, now: Instant, later: Instant)
    requires now <= later
    ensures Retain(souls, later).Keys <= Retain(souls, now).Keys
  {
  }

  /** Before 60 seconds of uptime, `flush` keeps everything. */
  lemma RetainBeforeHorizonKeepsAll(souls: Souls, now: Instant)
    requires now < FLUSH_AGE
    ensures Retain(souls, now) == souls
  {
  }

  /**
    `Instant::now() - Duration::from_secs(60)` as written: the subtraction of
    an `Instant` fails (`None` here) when it would fall before the epoch.
   */
  function CheckedHorizon(now: Instant): (h: Option<Instant>)
    ensures h.Some? <==> now >= FLUSH_AGE
    ensures h.Some? ==> h.value + FLUSH_AGE == now
  {
    if now >= FLUSH_AGE then Some(now - FLUSH_AGE) else None
  }

  /** `flush` as written: `None` when computing the horizon fails. */
  function FlushAsWritten(souls: Souls, now: Instant): (r: Option<Souls>)
    ensures r.None? <==> now < FLUSH_AGE
    ensures r.Some? ==> r.value == Retain(souls, now)
  {
    match CheckedHorizon(now)
    case None => None
    case Some(horizon) => Some(map k | k in souls && souls[k].lastSeen > horizon :: souls[k])
  }

  /** `flush` is first reached on the flush ticker, 10 seconds after the task starts. */
  const FLUSH_INTERVAL: Duration := 10_000

  /** A task started in the first 50 seconds after boot reaches the failing subtraction on its first flush tick. */
  lemma FirstFlushTickFails(souls: Souls, start: Instant)
    requires start + FLUSH_INTERVAL < FLUSH_AGE
    ensures FlushAsWritten(souls, start + FLUSH_INTERVAL).None?
    ensures Retain(souls, start + FLUSH_INTERVAL) == souls
  {
  }

  class Tracker {
    /** The capacity `S` of the map. */
    const capacity: nat
    var souls: Souls

    ghost predicate Valid()
      reads this
    {
      |souls| <= capacity && KeyedByAddress(souls)
    }

    /** `Tracker::new`: an empty map of the given capacity. */
    constructor (capacity: nat)
      requires IsPowerOfTwo(capacity)
      ensures Valid()
      ensures this.capacity == capacity && souls == map[]
    {
      this.capacity := capacity;
      souls := map[];
    }

    /** `update`: insert `presence` under its address, reporting which way the insert went. */
    method Update(presence: PresenceMessage) returns (outcome: InsertOutcome)
      requires Valid()
      modifies this
      ensures Valid()
      ensures InsertResult(outcome, souls) == Insert(old(souls), capacity, presence)
    {
      var result := Insert(souls, capacity, presence);
      souls := result.souls;
      outcome := result.outcome;
    }

    /** `flush`: drop every entry older than the 60-second horizon. */
    method Flush(now: Instant)
      requires Valid()
      modifies this
      ensures Valid()
      ensures souls == Retain(old(souls), now)
    {
      souls := Retain(souls, now);
    }
  }
}
