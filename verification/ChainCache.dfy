/** The cache of middleware chains, keyed by a formatted string. */
module ChainCache {

  datatype Route = Route(id: int, requireAuth: bool, ipLimit: bool, countryLimit: bool, domainLimit: bool)

  datatype Middleware =
    HeaderParser | TimeWindow | UniqueNonce | Authenticator | Authorizer | IPLimit | CountryLimit | DomainLimit

  // ----- the key

  function Digit(d: nat): char
    requires d < 10
  {
    (('0' as int) + d) as char
  }

  function Digits(n: nat): (s: string)
    ensures s != "" && forall i :: 0 <= i < |s| ==> '0' <= s[i] <= '9'
  {
    if n < 10 then [Digit(n)] else Digits(n / 10) + [Digit(n % 10)]
  }

  /** `%d` of a signed integer. */
  function Decimal(n: int): string {
    if n < 0 then "-" + Digits(-n) else Digits(n)
  }

  function BoolToInt(b: bool): int {
    if b then 1 else 0
  }

  function Flags(r: Route): string {
    ":a" + Decimal(BoolToInt(r.requireAuth)) + ":i" + Decimal(BoolToInt(r.ipLimit))
    + ":c" + Decimal(BoolToInt(r.countryLimit)) + ":d" + Decimal(BoolToInt(r.domainLimit))
  }

  function Key(r: Route): string {
    Decimal(r.id) + Flags(r)
  }

  function Value(s: string): nat
    requires forall i :: 0 <= i < |s| ==> '0' <= s[i] <= '9'
  {
    if s == "" then 0 else 10 * Value(s[..|s| - 1]) + (s[|s| - 1] as int - '0' as int)
  }

  /** Reading digits back gives the number. */
  lemma {:induction false} ValueOfDigits(n: nat)
    ensures Value(Digits(n)) == n
  {
    var s := Digits(n);
    if n >= 10 {
      ValueOfDigits(n / 10);
      assert s[..|s| - 1] == Digits(n / 10);
    } else {
      assert s[..|s| - 1] == "";
    }
  }

  lemma DecimalInjective(m: int, n: int)
    requires Decimal(m) == Decimal(n)
    ensures m == n
  {
    hide Digits, Value;
    ValueOfDigits(if m < 0 then -m else m);
    ValueOfDigits(if n < 0 then -n else n);
    assert Decimal(m)[0] == '-' <==> m < 0;
    assert Decimal(n)[0] == '-' <==> n < 0;
    if m < 0 {
      assert Decimal(m)[1..] == Digits(-m) && Decimal(n)[1..] == Digits(-n);
    }
  }

  /** The flags take twelve characters, whatever they are. */
  lemma FlagsAreFixedWidth(r: Route)
    ensures var f := Flags(r);
            && |f| == 12
            && (f[2] == '1' <==> r.requireAuth) && (f[5] == '1' <==> r.ipLimit)
            && (f[8] == '1' <==> r.countryLimit) && (f[11] == '1' <==> r.domainLimit)
  {
    assert Decimal(0) == "0" && Decimal(1) == "1";
  }

  /** Although the identifiers vary in length, no two routes share a key unless
      they agree on the identifier and on every flag. */
  lemma KeyInjective(r: Route, s: Route)
    ensures Key(r) == Key(s) <==> r == s
  {
    hide Decimal, Flags;
    if Key(r) == Key(s) {
      FlagsAreFixedWidth(r);
      FlagsAreFixedWidth(s);
      var k := Key(r);
      assert k[..|k| - 12] == Decimal(r.id) && k[|k| - 12..] == Flags(r);
      assert k[..|k| - 12] == Decimal(s.id) && k[|k| - 12..] == Flags(s);
      DecimalInjective(r.id, s.id);
    }
  }

  /** One key written out: the identifier in decimal, then each flag as 0 or 1. */
  lemma KeyText()
    ensures Key(Route(-42, true, false, true, false)) == "-42" + ":a1:i0:c1:d0"
  {
    FlagsText();
    IdentifierText();
    hide Flags, Decimal;
  }

  lemma FlagsText()
    ensures Flags(Route(-42, true, false, true, false)) == ":a1:i0:c1:d0"
  {
    assert Decimal(0) == ['0'] && Decimal(1) == ['1'];
    hide Decimal;
    var f := Flags(Route(-42, true, false, true, false));
    assert f == [':', 'a', '1', ':', 'i', '0', ':', 'c', '1', ':', 'd', '0'];
  }

  lemma IdentifierText()
    ensures Decimal(-42) == "-42"
  {
    assert Digits(4) == ['4'];
    assert Digits(42) == ['4', '2'];
  }

  // ----- the chain

  function Authentication(b: bool): seq<Middleware> {
    if b then [HeaderParser, TimeWindow, UniqueNonce, Authenticator, Authorizer] else []
  }

  function Stage(b: bool, m: Middleware): seq<Middleware> {
    if b then [m] else []
  }

  function Chain(r: Route): seq<Middleware> {
    Authentication(r.requireAuth) + Stage(r.ipLimit, IPLimit)
    + Stage(r.countryLimit, CountryLimit) + Stage(r.domainLimit, DomainLimit)
  }

  predicate Wanted(r: Route, m: Middleware) {
    match m
    case HeaderParser | TimeWindow | UniqueNonce | Authenticator | Authorizer => r.requireAuth
    case IPLimit => r.ipLimit
    case CountryLimit => r.countryLimit
    case DomainLimit => r.domainLimit
  }

  /** The place of a stage among all stages. */
  function Rank(m: Middleware): nat {
    match m
    case HeaderParser => 0 case TimeWindow => 1 case UniqueNonce => 2 case Authenticator => 3
    case Authorizer => 4 case IPLimit => 5 case CountryLimit => 6 case DomainLimit => 7
  }

  ghost predicate Ordered(ms: seq<Middleware>, bound: nat) {
    && (forall i :: 0 <= i < |ms| ==> Rank(ms[i]) < bound)
    && forall i, j :: 0 <= i < j < |ms| ==> Rank(ms[i]) < Rank(ms[j])
  }

  /** The chain has exactly the stages asked for, each once and in the fixed
      order: the time window is checked before the nonce, both before the secret. */
  lemma ChainMeaning(r: Route, m: Middleware)
    ensures m in Chain(r) <==> Wanted(r, m)
    ensures Ordered(Chain(r), 8)
  {
    var s0 := Authentication(r.requireAuth);
    var s1, s2 := s0 + Stage(r.ipLimit, IPLimit), s0 + Stage(r.ipLimit, IPLimit) + Stage(r.countryLimit, CountryLimit);
    AuthenticationStages(r.requireAuth, m);
    hide Authentication, Stage, Ordered;
    StageJoins(s0, r.ipLimit, IPLimit, m);
    StageJoins(s1, r.countryLimit, CountryLimit, m);
    StageJoins(s2, r.domainLimit, DomainLimit, m);
  }

  lemma FullChain()
    ensures forall id {:trigger Route(id, true, true, true, true)} ::
              Chain(Route(id, true, true, true, true))
              == [HeaderParser, TimeWindow, UniqueNonce, Authenticator, Authorizer, IPLimit, CountryLimit, DomainLimit]
  {
  }

  /** Flag by flag, and the whole of the longest chain. */
  lemma ChainExactly(r: Route)
    ensures HeaderParser in Chain(r) <==> r.requireAuth
    ensures TimeWindow in Chain(r) <==> r.requireAuth
    ensures UniqueNonce in Chain(r) <==> r.requireAuth
    ensures Authenticator in Chain(r) <==> r.requireAuth
    ensures Authorizer in Chain(r) <==> r.requireAuth
    ensures IPLimit in Chain(r) <==> r.ipLimit
    ensures CountryLimit in Chain(r) <==> r.countryLimit
    ensures DomainLimit in Chain(r) <==> r.domainLimit
    ensures r.requireAuth && r.ipLimit && r.countryLimit && r.domainLimit ==>
              Chain(r) == [HeaderParser, TimeWindow, UniqueNonce, Authenticator, Authorizer, IPLimit, CountryLimit,
                           DomainLimit]
  {
    FullChain();
    assert r.requireAuth && r.ipLimit && r.countryLimit && r.domainLimit ==> r == Route(r.id, true, true, true, true);
    hide Chain;
    ChainMeaning(r, HeaderParser);
    ChainMeaning(r, TimeWindow);
    ChainMeaning(r, UniqueNonce);
    ChainMeaning(r, Authenticator);
    ChainMeaning(r, Authorizer);
    ChainMeaning(r, IPLimit);
    ChainMeaning(r, CountryLimit);
    ChainMeaning(r, DomainLimit);
  }

  lemma AuthenticationStages(b: bool, m: Middleware)
    ensures Ordered(Authentication(b), 5)
    ensures m in Authentication(b) <==> b && Rank(m) < 5
  {
  }

  lemma StageJoins(ms: seq<Middleware>, b: bool, m: Middleware, x: Middleware)
    requires Ordered(ms, Rank(m))
    ensures Ordered(ms + Stage(b, m), Rank(m) + 1)
    ensures x in ms + Stage(b, m) <==> x in ms || (b && x == m)
  {
    hide Rank;
  }

  method Build(r: Route) returns (mws: seq<Middleware>)
    ensures mws == Chain(r)
  {
    mws := [];
    if r.requireAuth {
      mws := mws + [HeaderParser, TimeWindow, UniqueNonce, Authenticator, Authorizer];
    }
    if r.ipLimit {
      mws := mws + [IPLimit];
    }
    if r.countryLimit {
      mws := mws + [CountryLimit];
    }
    if r.domainLimit {
      mws := mws + [DomainLimit];
    }
  }

  // ----- the cache over a run

  type Cache = map<string, seq<Middleware>>

  /** What the write-locked part does to the cache, and what it answers. */
  function Next(m: Cache, r: Route): Cache {
    if Key(r) in m then m else m[Key(r) := Chain(r)]
  }

  function Answer(m: Cache, r: Route): seq<Middleware> {
    if Key(r) in m then m[Key(r)] else Chain(r)
  }

  function After(rs: seq<Route>): Cache {
    if rs == [] then map[] else Next(After(rs[..|rs| - 1]), rs[|rs| - 1])
  }

  /** The keys built during a run, in order. */
  function Built(rs: seq<Route>): seq<string> {
    if rs == [] then []
    else
      var front, r := rs[..|rs| - 1], rs[|rs| - 1];
      if Key(r) in After(front) then Built(front) else Built(front) + [Key(r)]
  }

  ghost predicate Coherent(m: Cache) {
    forall r: Route :: Key(r) in m ==> m[Key(r)] == Chain(r)
  }

  lemma NextCoherent(m: Cache, r: Route)
    requires Coherent(m)
    ensures Coherent(Next(m, r)) && Answer(m, r) == Chain(r)
  {
    hide Key, Chain;
    forall s: Route | Key(s) in Next(m, r) ensures Next(m, r)[Key(s)] == Chain(s) {
      KeyInjective(r, s);
    }
  }

  lemma {:induction false} AfterCoherent(rs: seq<Route>)
    ensures Coherent(After(rs))
  {
    if rs != [] {
      AfterCoherent(rs[..|rs| - 1]);
      NextCoherent(After(rs[..|rs| - 1]), rs[|rs| - 1]);
    }
  }

  /** Whatever was looked up before, with routes changing their flags at will, the
      answer is the chain a fresh build would give. */
  lemma CacheIsInvisible(rs: seq<Route>, r: Route)
    ensures Answer(After(rs), r) == Chain(r)
  {
    AfterCoherent(rs);
    NextCoherent(After(rs), r);
  }

  /** Over any run, no key is built twice, and exactly the keys asked for are. */
  lemma {:induction false} BuiltOnce(rs: seq<Route>)
    ensures forall i, j :: 0 <= i < j < |Built(rs)| ==> Built(rs)[i] != Built(rs)[j]
    ensures forall k :: k in Built(rs) <==> k in After(rs)
    ensures forall k :: k in After(rs) <==> exists i :: 0 <= i < |rs| && Key(rs[i]) == k
  {
    hide Key, Chain;
    if rs != [] {
      var front, r := rs[..|rs| - 1], rs[|rs| - 1];
      BuiltOnce(front);
      forall k ensures k in After(rs) <==> exists i :: 0 <= i < |rs| && Key(rs[i]) == k {
        if k in After(front) {
          var i :| 0 <= i < |front| && Key(front[i]) == k;
          assert Key(rs[i]) == k;
        }
        if k == Key(r) {
          assert Key(rs[|rs| - 1]) == k;
        }
        if i :| 0 <= i < |rs| && Key(rs[i]) == k {
          assert i < |front| ==> Key(front[i]) == k;
        }
      }
    }
  }

  class MiddlewareCache {
    var m: Cache

    /** The lookups that reached the write-locked part. */
    ghost var filled: seq<Route>

    ghost predicate Valid()
      reads this
    {
      m == After(filled)
    }

    constructor ()
      ensures Valid() && filled == []
    {
      m, filled := map[], [];
    }

    /** The part under the write lock. */
    method Fill(r: Route) returns (mws: seq<Middleware>)
      requires Valid()
      modifies this
      ensures Valid() && filled == old(filled) + [r]
      ensures mws == Chain(r)
    {
      CacheIsInvisible(filled, r);
      assert (filled + [r])[..|filled|] == filled;
      filled := filled + [r];
      var cacheKey := Key(r);
      if cacheKey in m {
        return m[cacheKey];
      }
      mws := Build(r);
      m := m[cacheKey := mws];
    }

    /** One lookup. `others` are the requests that get the write lock between this
        lookup's read and its own write. */
    method GetOrBuild(r: Route, others: seq<Route>) returns (mws: seq<Middleware>)
      requires Valid()
      modifies this
      ensures Valid() && mws == Chain(r)
      ensures filled == old(filled) + if Key(r) in old(m) then [] else others + [r]
    {
      hide Key, Chain, After;
      var cacheKey := Key(r);
      if cacheKey in m {
        CacheIsInvisible(filled, r);
        return m[cacheKey];
      }
      for i := 0 to |others|
        invariant Valid() && filled == old(filled) + others[..i]
      {
        var _ := Fill(others[i]);
        assert others[..i] + [others[i]] == others[..i + 1];
      }
      mws := Fill(r);
      assert others[..|others|] == others;
    }
  }
}
