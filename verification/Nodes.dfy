/** Load-balancer nodes as values: what one node's fields mean and how each
    locked operation rewrites them. The classes in `LoadBalancer` are proved
    against the functions of this module. Times count from the zero instant, so
    that 0 stands for a time that was never set. */
module Nodes {
  import opened Prelude

  const FAILURE_COOLDOWN: int := 15 * SECOND
  const DEFAULT_MAX_CONN: int := 100

  datatype ServiceNode = ServiceNode(
    id: int, url: string, weight: int, maxConn: int, status: int, availability: real)

  datatype Service = Service(id: int, nodes: seq<ServiceNode>)

  datatype BreakerKind = Errors | MaxConn

  datatype Breaker = Breaker(kind: BreakerKind, start: Time)

  datatype Node = Node(
    conf: ServiceNode,
    currentWeight: int,
    activeRequests: int,
    disabledUntil: Time,
    consecutiveFails: int,
    lastError: string,
    breaker: Option<Breaker>)

  predicate IsActive(breaker: Option<Breaker>, now: Time) {
    && breaker.Some?
    && breaker.value.start != 0
    && now - breaker.value.start < FAILURE_COOLDOWN
  }

  function EffectiveMaxConn(conf: ServiceNode): int {
    if conf.maxConn <= 0 then DEFAULT_MAX_CONN else conf.maxConn
  }

  predicate Available(n: Node, now: Time) {
    && n.conf.status == 1
    && !IsActive(n.breaker, now)
    && !(n.disabledUntil != 0 && n.disabledUntil > now)
    && n.activeRequests < EffectiveMaxConn(n.conf)
  }

  /** Who is available, field by field: enabled; no breaker opened in the last 15 s;
      no cooldown still running; and a free slot, 100 of them where no positive limit
      is set. */
  lemma AvailableExactly(n: Node, now: Time)
    ensures Available(n, now) <==>
            && n.conf.status == 1
            && (n.breaker == None || n.breaker.value.start == 0 || now - n.breaker.value.start >= 15_000_000_000)
            && (n.disabledUntil == 0 || n.disabledUntil <= now)
            && (if n.conf.maxConn > 0 then n.activeRequests < n.conf.maxConn else n.activeRequests < 100)
  {
  }

  function NormalizedWeight(weight: int): int {
    if weight > 0 then weight else 1
  }

  /** The part of its weight that a node's availability leaves it. */
  function Share(conf: ServiceNode): real {
    conf.weight as real * (conf.availability / 100.0)
  }

  /** Truncation toward zero and `Floor` differ only on negative products, and
      there the maximum with 1 hides the difference. */
  function AdjustedWeight(conf: ServiceNode): (w: int)
    ensures w >= 1
    ensures Share(conf) < 1.0 ==> w == 1
    ensures Share(conf) >= 1.0 ==> w as real <= Share(conf) < w as real + 1.0
  {
    var scaled := Share(conf).Floor;
    if scaled > 1 then scaled else 1
  }

  /** The order `compareNodeLoad` implements: activeRequests/weight, by cross
      multiplication. */
  predicate LoadAtMost(a: Node, b: Node) {
    a.activeRequests * NormalizedWeight(b.conf.weight) <= b.activeRequests * NormalizedWeight(a.conf.weight)
  }

  lemma LoadTotal(a: Node, b: Node)
    ensures LoadAtMost(a, a)
    ensures LoadAtMost(a, b) || LoadAtMost(b, a)
  {
  }

  lemma LoadTransitive(a: Node, b: Node, c: Node)
    requires LoadAtMost(a, b) && LoadAtMost(b, c)
    ensures LoadAtMost(a, c)
  {
    var wa, wb, wc := NormalizedWeight(a.conf.weight), NormalizedWeight(b.conf.weight), NormalizedWeight(c.conf.weight);
    CrossTransitive(a.activeRequests, wa, b.activeRequests, wb, c.activeRequests, wc);
  }

  lemma CrossTransitive(x: int, wx: int, y: int, wy: int, z: int, wz: int)
    requires wx > 0 && wy > 0 && wz > 0
    requires x * wy <= y * wx && y * wz <= z * wy
    ensures x * wz <= z * wx
  {
    ScaleInts(x * wy, y * wx, wz);
    ScaleInts(y * wz, z * wy, wx);
    assert x * wy * wz == (x * wz) * wy;
    assert y * wx * wz == y * wz * wx;
    assert z * wy * wx == (z * wx) * wy;
    ScaleInts(x * wz, z * wx, wy);
  }

  lemma ScaleInts(p: int, q: int, k: int)
    requires k > 0
    ensures p <= q <==> p * k <= q * k
  {
  }

  /** Load order as an order on exact ratios: the meaning of the cross product. */
  lemma LoadIsRatio(a: Node, b: Node)
    ensures var wa := if a.conf.weight > 0 then a.conf.weight else 1;
            var wb := if b.conf.weight > 0 then b.conf.weight else 1;
            LoadAtMost(a, b) <==> a.activeRequests as real / wa as real <= b.activeRequests as real / wb as real
  {
    var wa, wb := NormalizedWeight(a.conf.weight) as real, NormalizedWeight(b.conf.weight) as real;
    var x, y := a.activeRequests as real, b.activeRequests as real;
    var p, q := x / wa, y / wb;
    assert p * wa == x && q * wb == y;
    assert x * wb == (p * wb) * wa && y * wa == (q * wb) * wa == (q * wa) * wb;
    assert wa * wb > 0.0;
    assert x * wb == p * (wa * wb) && y * wa == q * (wa * wb);
    ScaleOrder(p, q, wa * wb);
    assert LoadAtMost(a, b) <==> x * wb <= y * wa;
  }

  lemma ScaleOrder(p: real, q: real, k: real)
    requires k > 0.0
    ensures p <= q <==> p * k <= q * k
  {
  }

  /** Availability is a percentage of the weight. */
  lemma ShareIsPercentage(conf: ServiceNode)
    ensures 100.0 * Share(conf) == conf.weight as real * conf.availability
  {
    var q := conf.availability / 100.0;
    assert 100.0 * q == conf.availability;
    ScaledThrough(conf.weight as real, q, conf.availability);
  }

  lemma ScaledThrough(w: real, q: real, a: real)
    requires 100.0 * q == a
    ensures 100.0 * (w * q) == w * a
  {
  }

  lemma FullShare(conf: ServiceNode)
    requires conf.availability == 100.0
    ensures Share(conf) == conf.weight as real
  {
    assert conf.availability / 100.0 == 1.0;
  }

  lemma ShareFollowsAvailability(conf: ServiceNode, lower: ServiceNode)
    requires lower == conf.(availability := lower.availability) && conf.weight >= 1
    requires lower.availability <= conf.availability
    ensures Share(lower) <= Share(conf)
  {
    var w, p, q := conf.weight as real, lower.availability / 100.0, conf.availability / 100.0;
    assert lower.weight as real == w && p <= q && w > 0.0;
    ScaleOrder(p, q, w);
    assert p * w == w * p && q * w == w * q;
  }

  /** What a healthy node is credited is its weight, and less available means at
      most as much. */
  lemma AdjustedWeightFollowsAvailability(conf: ServiceNode, lower: ServiceNode)
    requires lower == conf.(availability := lower.availability) && conf.weight >= 1
    ensures conf.availability == 100.0 ==> AdjustedWeight(conf) == conf.weight
    ensures lower.availability <= conf.availability ==> AdjustedWeight(lower) <= AdjustedWeight(conf)
  {
    hide Share;
    if conf.availability == 100.0 {
      FullShare(conf);
    }
    if lower.availability <= conf.availability {
      ShareFollowsAvailability(conf, lower);
    }
  }

  // ----- what each locked operation does to the one node it finds

  function Decremented(active: int): int {
    if active > 0 then active - 1 else active
  }

  function Released(n: Node): Node {
    n.(activeRequests := Decremented(n.activeRequests))
  }

  function Lowered(availability: real, step: real): real {
    if availability - step < 0.0 then 0.0 else availability - step
  }

  function Raised(availability: real): real {
    if availability < 100.0 then
      if availability + 0.5 > 100.0 then 100.0 else availability + 0.5
    else availability
  }

  function Failed(n: Node, err: Option<string>, now: Time): Node {
    n.(activeRequests := Decremented(n.activeRequests),
       consecutiveFails := n.consecutiveFails + 1,
       disabledUntil := now + FAILURE_COOLDOWN,
       currentWeight := 0,
       breaker := Some(Breaker(Errors, now)),
       lastError := if err.Some? then err.value else n.lastError,
       conf := n.conf.(availability := Lowered(n.conf.availability, 5.0)))
  }

  function Succeeded(n: Node): Node {
    n.(activeRequests := Decremented(n.activeRequests),
       consecutiveFails := 0,
       disabledUntil := 0,
       lastError := "",
       breaker := None,
       conf := n.conf.(availability := Raised(n.conf.availability)))
  }

  function Saturated(n: Node, now: Time): Node {
    n.(breaker := Some(Breaker(MaxConn, now)),
       conf := n.conf.(availability := Lowered(n.conf.availability, 3.0)))
  }

  function FreshNode(conf: ServiceNode): Node {
    Node(conf, 0, 0, 0, 0, "", None)
  }

  /** Run-time state carried over to a node rebuilt from new configuration;
      availability is the configured one again. */
  function Carried(previous: Node, conf: ServiceNode): Node {
    previous.(conf := conf)
  }

  // ----- the same effects, field by field

  function Max(a: real, b: real): real {
    if a < b then b else a
  }

  function Min(a: real, b: real): real {
    if a < b then a else b
  }

  /** What a mark leaves alone: identity and configured fields. */
  predicate SameIdentity(n: Node, n': Node) {
    && n'.conf.id == n.conf.id && n'.conf.url == n.conf.url && n'.conf.weight == n.conf.weight
    && n'.conf.maxConn == n.conf.maxConn && n'.conf.status == n.conf.status
  }

  /** A failure: 15 s of cooldown and breaker, weight reset, 5 points less. */
  lemma FailedExactly(n: Node, err: Option<string>, now: Time)
    ensures var n' := Failed(n, err, now);
            && SameIdentity(n, n')
            && n'.conf.availability == Max(n.conf.availability - 5.0, 0.0)
            && n'.activeRequests == (if n.activeRequests > 0 then n.activeRequests - 1 else n.activeRequests)
            && n'.consecutiveFails == n.consecutiveFails + 1
            && n'.disabledUntil == now + 15_000_000_000
            && n'.currentWeight == 0
            && n'.breaker == Some(Breaker(Errors, now))
            && (err.Some? ==> n'.lastError == err.value) && (err.None? ==> n'.lastError == n.lastError)
  {
  }

  /** A success: every trace of failure is gone, half a point more up to 100. */
  lemma SucceededExactly(n: Node)
    ensures var n' := Succeeded(n);
            && SameIdentity(n, n')
            && (n.conf.availability < 100.0 ==> n'.conf.availability == Min(n.conf.availability + 0.5, 100.0))
            && (n.conf.availability >= 100.0 ==> n'.conf.availability == n.conf.availability)
            && n'.activeRequests == (if n.activeRequests > 0 then n.activeRequests - 1 else n.activeRequests)
            && n'.consecutiveFails == 0 && n'.disabledUntil == 0 && n'.lastError == "" && n'.breaker == None
            && n'.currentWeight == n.currentWeight
  {
  }

  /** A timeout: breaker and 3 points less, nothing else. */
  lemma SaturatedExactly(n: Node, now: Time)
    ensures var n' := Saturated(n, now);
            && SameIdentity(n, n')
            && n'.conf.availability == Max(n.conf.availability - 3.0, 0.0)
            && n'.breaker == Some(Breaker(MaxConn, now))
            && n'.activeRequests == n.activeRequests && n'.consecutiveFails == n.consecutiveFails
            && n'.disabledUntil == n.disabledUntil && n'.currentWeight == n.currentWeight
            && n'.lastError == n.lastError
  {
  }
}
