/** The per-IP limiter of internal/middleware/ratelimit.go: a table of buckets looked up under a
    mutex, a sweeper that drops entries idle for more than five minutes, and Allow calls that run
    outside the mutex on whatever bucket the lookup returned. */
module RateLimiter {
  import opened TokenBucket

  /** Five minutes in nanoseconds. */
  const IDLE := 300_000_000_000

  /** A visitor: `L` identifies its bucket (an object in the class, an index in a run). */
  datatype Entry<L> = Entry(limiter: L, lastSeen: int)

  /** `getVisitor` on the table; `spare` is the bucket a first visit would get. */
  function Seen<L>(table: map<string, Entry<L>>, ip: string, spare: L, now: int): map<string, Entry<L>> {
    table[ip := Entry(if ip in table then table[ip].limiter else spare, now)]
  }

  /** The clock as the sweep reads it for each entry in turn. */
  type Clock = map<string, int>

  function Reading(clock: Clock, ip: string, now: int): int { if ip in clock then clock[ip] else now }

  /** One tick of `cleanupVisitors` on the table. */
  function Swept<L>(table: map<string, Entry<L>>, clock: Clock, now: int): map<string, Entry<L>> {
    map ip | ip in table && Reading(clock, ip, now) - table[ip].lastSeen <= IDLE :: table[ip]
  }

  class Limiter {
    const config: Config
    var tokens: int
    var last: int

    function Bucket(): Bucket reads this { TokenBucket.Bucket(tokens, last) }

    constructor (c: Config, now: int)
      ensures config == c && Bucket() == Full(c, now)
    {
      config, tokens, last := c, c.Capacity(), now;
    }

    method Allow(now: int) returns (ok: bool)
      modifies this
      ensures (Bucket(), ok) == Take(config, old(Bucket()), now)
    {
      var from := if now < last then now else last;
      var level := tokens + config.rpm * (now - from);
      if level > config.Capacity() {
        level := config.Capacity();
      }
      ok := level >= COST;
      if ok {
        tokens, last := level - COST, now;
      }
    }
  }

  class Visitor {
    const limiter: Limiter
    var lastSeen: int

    constructor (limiter: Limiter, now: int)
      ensures this.limiter == limiter && lastSeen == now
    {
      this.limiter, lastSeen := limiter, now;
    }
  }

  class RateLimiter {
    const config: Config
    var visitors: map<string, Visitor>

    /** No two IPs share a visitor or a bucket. */
    ghost predicate Valid()
      reads this, visitors.Values
    {
      && (forall ip :: ip in visitors ==> visitors[ip].limiter.config == config)
      && (forall a, b :: a in visitors && b in visitors && a != b ==>
                           visitors[a] != visitors[b] && visitors[a].limiter != visitors[b].limiter)
    }

    ghost function Table(): map<string, Entry<Limiter>>
      reads this, visitors.Values
    {
      map ip | ip in visitors :: Entry(visitors[ip].limiter, visitors[ip].lastSeen)
    }

    constructor (c: Config)
      ensures Valid() && config == c && Table() == map[]
    {
      config, visitors := c, map[];
    }

    method GetVisitor(ip: string, now: int) returns (limiter: Limiter)
      requires Valid()
      modifies `visitors, visitors.Values`lastSeen
      ensures Valid()
      ensures ip in Table() && limiter == Table()[ip].limiter
      ensures ip !in old(Table()) ==> fresh(limiter) && limiter.Bucket() == Full(config, now)
      ensures Table() == Seen(old(Table()), ip, limiter, now)
    {
      if ip !in visitors {
        limiter := new Limiter(config, now);
        var v := new Visitor(limiter, now);
        visitors := visitors[ip := v];
        return;
      }
      var v := visitors[ip];
      v.lastSeen := now;
      limiter := v.limiter;
    }

    method Sweep(clock: Clock, now: int)
      requires Valid()
      modifies `visitors
      ensures Valid()
      ensures Table() == Swept(old(Table()), clock, now)
    {
      DropIdle(clock, now);
    }

    /** The sweeper's loop over the map. */
    method DropIdle(clock: Clock, now: int)
      modifies `visitors
      ensures visitors.Keys <= old(visitors.Keys)
      ensures forall ip :: ip in visitors ==> visitors[ip] == old(visitors)[ip]
      ensures forall ip :: ip in old(visitors) ==>
                (ip in visitors <==> Reading(clock, ip, now) - old(visitors[ip].lastSeen) <= IDLE)
    {
      var todo := visitors.Keys;
      while todo != {}
        invariant todo <= visitors.Keys <= old(visitors.Keys)
        invariant forall ip :: ip in visitors ==> visitors[ip] == old(visitors)[ip]
        invariant forall ip :: ip in old(visitors) && ip !in todo ==>
                                 (ip in visitors <==> Reading(clock, ip, now) - old(visitors)[ip].lastSeen <= IDLE)
        decreases |todo|
      {
        var ip :| ip in todo;
        todo := todo - {ip};
        var elapsed := Reading(clock, ip, now) - visitors[ip].lastSeen;
        if elapsed > IDLE {
          visitors := visitors - {ip};
        }
      }
    }

    /** The limiter's part of `Middleware`: look the visitor up, then ask its bucket. */
    method Admit(ip: string, seenAt: int, askedAt: int) returns (ok: bool)
      requires Valid()
      modifies `visitors, visitors.Values`lastSeen, set v | v in visitors.Values :: v.limiter
      ensures Valid()
      ensures ip in Table() && Table() == Seen(old(Table()), ip, Table()[ip].limiter, seenAt)
      ensures ok == Take(config, if ip in old(visitors) then old(visitors[ip].limiter.Bucket())
                                 else Full(config, seenAt), askedAt).1
      ensures Table()[ip].limiter.Bucket()
           == Take(config, if ip in old(visitors) then old(visitors[ip].limiter.Bucket())
                           else Full(config, seenAt), askedAt).0
      ensures forall other :: other in old(visitors) && other != ip ==>
                old(visitors)[other].limiter.Bucket() == old(visitors[other].limiter.Bucket())
    {
      var limiter := GetVisitor(ip, seenAt);
      ok := limiter.Allow(askedAt);
    }
  }
}
